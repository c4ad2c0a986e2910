/** getAverageColor (script.js:158-180): the mean red, green and blue of the
    pixels of a square block that lie inside the image. */
module Averager {
  import opened Wrappers
  import opened Pixels
  import Arith

  function Min(a: int, b: int): int { if a <= b then a else b }

  /** Where the x loop stops: the first x failing `x < startX + size && x < width`,
      or startX itself when the body never runs. */
  function XEnd(img: Image, startX: nat, size: int): nat {
    Arith.Max(startX, Min(startX + size, img.width))
  }

  /** Where the y loop stops, as XEnd for the rows. */
  function YEnd(img: Image, startY: nat, size: int): nat {
    Arith.Max(startY, Min(startY + size, img.height))
  }

  /** Pixels (x0, y) up to (x1 - 1, y), left to right. */
  function RowPoints(y: nat, x0: nat, x1: nat): (ps: seq<Point>)
    requires x0 <= x1
    ensures |ps| == x1 - x0
    ensures forall i :: 0 <= i < |ps| ==> ps[i] == Point(x0 + i, y)
    decreases x1 - x0
  {
    if x1 == x0 then [] else RowPoints(y, x0, x1 - 1) + [Point(x1 - 1, y)]
  }

  /** The pixels of the box [x0, x1) x [y0, y1), row after row. */
  function BoxPoints(x0: nat, x1: nat, y0: nat, y1: nat): (ps: seq<Point>)
    requires x0 <= x1 && y0 <= y1
    ensures |ps| == (y1 - y0) * (x1 - x0)
    ensures forall i :: 0 <= i < |ps| ==> x0 <= ps[i].x < x1 && y0 <= ps[i].y < y1
    decreases y1 - y0
  {
    if y1 == y0 then []
    else
      var ps := BoxPoints(x0, x1, y0, y1 - 1) + RowPoints(y1 - 1, x0, x1);
      assert (y1 - y0) * (x1 - x0) == (y1 - 1 - y0) * (x1 - x0) + (x1 - x0);
      ps
  }

  /** The pixels getAverageColor reads, in the order its loops read them. */
  function Visited(img: Image, startX: nat, startY: nat, size: int): (ps: seq<Point>)
    ensures AllInBounds(img, ps)
  {
    BoxPoints(startX, XEnd(img, startX, size), startY, YEnd(img, startY, size))
  }

  /** Sum of channel `ch` over the pixels `ps` (the accumulators r, g, b). */
  function ChannelSum(img: Image, ps: seq<Point>, ch: nat): (s: int)
    requires Valid(img) && ch < 4 && AllInBounds(img, ps)
    ensures 0 <= s <= 255 * |ps|
  {
    if |ps| == 0 then 0
    else ChannelSum(img, ps[..|ps| - 1], ch) + Sample(img, ps[|ps| - 1], ch)
  }

  /** v is the mean sum / n rounded down (Math.floor of a non-negative quotient). */
  predicate FloorMean(v: int, sum: int, n: int) {
    v * n <= sum < (v + 1) * n
  }

  /** Some pixel of the block lies inside the image exactly when the origin
      does and the block is not empty. */
  lemma VisitedNonEmpty(img: Image, startX: nat, startY: nat, size: int)
    ensures |Visited(img, startX, startY, size)| > 0 <==> startX < img.width && startY < img.height && size > 0
  {
    Arith.MulPositive(YEnd(img, startY, size) - startY, XEnd(img, startX, size) - startX);
  }

  /** The return statement of getAverageColor: each sum divided by the count
      and rounded down; with a zero count every channel is NaN (None). */
  function Divide(r: int, g: int, b: int, count: nat): (c: Option<Color>)
    ensures c.Some? <==> count > 0
    ensures c.Some? ==> FloorMean(c.value.r, r, count) && FloorMean(c.value.g, g, count) && FloorMean(c.value.b, b, count)
  {
    if count == 0 then None
    else
      Arith.FloorOfQuotient(r, count);
      Arith.FloorOfQuotient(g, count);
      Arith.FloorOfQuotient(b, count);
      Some(Color(r / count, g / count, b / count))
  }

  /** getAverageColor as a function of the image and the block. */
  function BlockAverage(img: Image, startX: nat, startY: nat, size: int): (c: Option<Color>)
    requires Valid(img)
    ensures c.Some? <==> startX < img.width && startY < img.height && size > 0
    ensures c.Some? ==> ValidColor(c.value)
  {
    var ps := Visited(img, startX, startY, size);
    var r, g, b := ChannelSum(img, ps, 0), ChannelSum(img, ps, 1), ChannelSum(img, ps, 2);
    VisitedNonEmpty(img, startX, startY, size);
    if |ps| > 0 then
      Arith.MeanBound(r, |ps|, 255);
      Arith.MeanBound(g, |ps|, 255);
      Arith.MeanBound(b, |ps|, 255);
      Divide(r, g, b, |ps|)
    else Divide(r, g, b, |ps|)
  }

  /** Each channel of the average is the mean of that channel over the
      visited pixels, rounded down. */
  lemma AverageIsFloorMean(img: Image, startX: nat, startY: nat, size: int)
    requires Valid(img) && BlockAverage(img, startX, startY, size).Some?
    ensures var c := BlockAverage(img, startX, startY, size).value;
            var ps := Visited(img, startX, startY, size);
            && FloorMean(c.r, ChannelSum(img, ps, 0), |ps|)
            && FloorMean(c.g, ChannelSum(img, ps, 1), |ps|)
            && FloorMean(c.b, ChannelSum(img, ps, 2), |ps|)
  {
    var ps := Visited(img, startX, startY, size);
    Arith.FloorOfQuotient(ChannelSum(img, ps, 0), |ps|);
    Arith.FloorOfQuotient(ChannelSum(img, ps, 1), |ps|);
    Arith.FloorOfQuotient(ChannelSum(img, ps, 2), |ps|);
  }

  /** The number of pixels averaged is the in-bounds part of the block. */
  lemma BlockCount(img: Image, startX: nat, startY: nat, size: int)
    requires startX < img.width && startY < img.height && size > 0
    ensures |Visited(img, startX, startY, size)| == Min(size, img.height - startY) * Min(size, img.width - startX)
  {
  }

  lemma {:induction false} BoxContains(x0: nat, x1: nat, y0: nat, y1: nat, p: Point)
    requires x0 <= x1 && y0 <= y1
    requires x0 <= p.x < x1 && y0 <= p.y < y1
    ensures p in BoxPoints(x0, x1, y0, y1)
    decreases y1 - y0
  {
    var row := RowPoints(y1 - 1, x0, x1);
    if p.y == y1 - 1 {
      assert row[p.x - x0] == p;
    } else {
      BoxContains(x0, x1, y0, y1 - 1, p);
    }
  }

  /** A pixel is averaged exactly when it lies in the block and in the image. */
  lemma VisitedExactly(img: Image, startX: nat, startY: nat, size: int, p: Point)
    ensures p in Visited(img, startX, startY, size) <==>
              && startX <= p.x < startX + size && p.x < img.width
              && startY <= p.y < startY + size && p.y < img.height
  {
    if startX <= p.x < startX + size && p.x < img.width && startY <= p.y < startY + size && p.y < img.height {
      BoxContains(startX, XEnd(img, startX, size), startY, YEnd(img, startY, size), p);
    }
  }

  predicate Distinct(ps: seq<Point>) {
    forall i, j :: 0 <= i < j < |ps| ==> ps[i] != ps[j]
  }

  /** No pixel is visited twice. */
  lemma {:induction false} BoxPointsDistinct(x0: nat, x1: nat, y0: nat, y1: nat)
    requires x0 <= x1 && y0 <= y1
    ensures Distinct(BoxPoints(x0, x1, y0, y1))
    decreases y1 - y0
  {
    if y1 > y0 {
      BoxPointsDistinct(x0, x1, y0, y1 - 1);
      var a := BoxPoints(x0, x1, y0, y1 - 1);
      var row := RowPoints(y1 - 1, x0, x1);
      var ps := BoxPoints(x0, x1, y0, y1);
      assert ps == a + row;
      forall i, j | 0 <= i < j < |ps|
        ensures ps[i] != ps[j]
      {
        if j < |a| {
          assert ps[i] == a[i] && ps[j] == a[j];
        } else if i < |a| {
          assert ps[i] == a[i] && ps[j] == row[j - |a|];
          assert ps[i].y < y1 - 1 == ps[j].y;
        } else {
          assert ps[i] == row[i - |a|] == Point(x0 + i - |a|, y1 - 1);
          assert ps[j] == row[j - |a|] == Point(x0 + j - |a|, y1 - 1);
        }
      }
    }
  }

  lemma VisitedDistinct(img: Image, startX: nat, startY: nat, size: int)
    ensures Distinct(Visited(img, startX, startY, size))
  {
    BoxPointsDistinct(startX, XEnd(img, startX, size), startY, YEnd(img, startY, size));
  }

  lemma {:induction false} UniformSum(img: Image, ps: seq<Point>, ch: nat, v: int)
    requires Valid(img) && ch < 4 && AllInBounds(img, ps)
    requires forall i :: 0 <= i < |ps| ==> Sample(img, ps[i], ch) == v
    ensures ChannelSum(img, ps, ch) == v * |ps|
  {
    if |ps| > 0 {
      UniformSum(img, ps[..|ps| - 1], ch, v);
    }
  }

  /** A block of one colour averages to exactly that colour. */
  lemma UniformBlock(img: Image, startX: nat, startY: nat, size: int, col: Color)
    requires Valid(img)
    requires startX < img.width && startY < img.height && size > 0
    requires forall p: Point :: InBounds(img, p) && startX <= p.x < startX + size && startY <= p.y < startY + size
               ==> PixelColor(img, p) == col
    ensures BlockAverage(img, startX, startY, size) == Some(col)
  {
    var ps := Visited(img, startX, startY, size);
    forall i | 0 <= i < |ps|
      ensures PixelColor(img, ps[i]) == col
    {
      VisitedExactly(img, startX, startY, size, ps[i]);
    }
    UniformSum(img, ps, 0, col.r);
    UniformSum(img, ps, 1, col.g);
    UniformSum(img, ps, 2, col.b);
    Arith.MulDivCancel(col.r, |ps|);
    Arith.MulDivCancel(col.g, |ps|);
    Arith.MulDivCancel(col.b, |ps|);
  }

  lemma {:induction false} ChannelSumIgnoresAlpha(a: Image, b: Image, ps: seq<Point>, ch: nat)
    requires Valid(a) && Valid(b) && SameRgb(a, b) && ch < 3
    requires AllInBounds(a, ps)
    ensures AllInBounds(b, ps) && ChannelSum(a, ps, ch) == ChannelSum(b, ps, ch)
  {
    if |ps| > 0 {
      ChannelSumIgnoresAlpha(a, b, ps[..|ps| - 1], ch);
      var p := ps[|ps| - 1];
      assert ByteIndex(a, p, ch) == ByteIndex(b, p, ch);
    }
  }

  /** The alpha bytes never influence the averaged colour. */
  lemma AverageIgnoresAlpha(a: Image, b: Image, startX: nat, startY: nat, size: int)
    requires Valid(a) && Valid(b) && SameRgb(a, b)
    ensures BlockAverage(a, startX, startY, size) == BlockAverage(b, startX, startY, size)
  {
    var ps := Visited(a, startX, startY, size);
    assert ps == Visited(b, startX, startY, size);
    ChannelSumIgnoresAlpha(a, b, ps, 0);
    ChannelSumIgnoresAlpha(a, b, ps, 1);
    ChannelSumIgnoresAlpha(a, b, ps, 2);
  }

  /** Reading one more pixel of the current row adds its bytes to the sums. */
  lemma ExtendRow(img: Image, done: seq<Point>, y: nat, x0: nat, x: nat)
    requires Valid(img) && AllInBounds(img, done) && x0 <= x
    requires x < img.width && y < img.height
    ensures var seen := done + RowPoints(y, x0, x);
            var seen' := done + RowPoints(y, x0, x + 1);
            && AllInBounds(img, seen')
            && |seen'| == |seen| + 1
            && forall ch :: 0 <= ch < 3 ==>
                 ChannelSum(img, seen', ch) == ChannelSum(img, seen, ch) + Sample(img, Point(x, y), ch)
  {
    var seen := done + RowPoints(y, x0, x);
    var seen' := done + RowPoints(y, x0, x + 1);
    assert seen' == seen + [Point(x, y)];
    assert seen'[..|seen'| - 1] == seen;
  }

  /** The three colour bytes of pixel (x, y) start at offset `(y * width + x) * 4`. */
  lemma PixelBytes(img: Image, x: nat, y: nat, index: int)
    requires Valid(img) && x < img.width && y < img.height
    requires index == (y * img.width + x) * 4
    ensures 0 <= index && index + 2 < |img.data|
    ensures img.data[index] == Sample(img, Point(x, y), 0)
    ensures img.data[index + 1] == Sample(img, Point(x, y), 1)
    ensures img.data[index + 2] == Sample(img, Point(x, y), 2)
  {
    assert index + 2 == ByteIndex(img, Point(x, y), 2);
  }

  /** The inner loop of getAverageColor over row y: adds the bytes of the
      pixels (startX, y) .. (xEnd - 1, y) to the accumulators. */
  method SumRow(img: Image, startX: nat, size: int, y: nat, ghost done: seq<Point>,
                r0: int, g0: int, b0: int, count0: nat)
    returns (r: int, g: int, b: int, count: nat)
    requires Valid(img) && y < img.height && AllInBounds(img, done)
    requires count0 == |done|
    requires r0 == ChannelSum(img, done, 0) && g0 == ChannelSum(img, done, 1) && b0 == ChannelSum(img, done, 2)
    ensures var seen := done + RowPoints(y, startX, XEnd(img, startX, size));
            && AllInBounds(img, seen) && count == |seen|
            && r == ChannelSum(img, seen, 0) && g == ChannelSum(img, seen, 1) && b == ChannelSum(img, seen, 2)
  {
    ghost var xEnd := XEnd(img, startX, size);
    r, g, b, count := r0, g0, b0, count0;
    var x := startX;
    ghost var seen := done;
    while x < startX + size && x < img.width
      invariant startX <= x <= xEnd
      invariant seen == done + RowPoints(y, startX, x)
      invariant AllInBounds(img, seen)
      invariant count == |seen|
      invariant r == ChannelSum(img, seen, 0)
      invariant g == ChannelSum(img, seen, 1)
      invariant b == ChannelSum(img, seen, 2)
      decreases img.width - x
    {
      ExtendRow(img, done, y, startX, x);
      var index := (y * img.width + x) * 4;
      PixelBytes(img, x, y, index);
      r := r + img.data[index];
      g := g + img.data[index + 1];
      b := b + img.data[index + 2];
      count := count + 1;
      seen := done + RowPoints(y, startX, x + 1);
      x := x + 1;
    }
    LoopExit(x, startX, size, img.width);
  }

  /** The division step of getAverageColor applied to the sums over the
      visited pixels gives BlockAverage. */
  lemma DivideSums(img: Image, startX: nat, startY: nat, size: int, r: int, g: int, b: int, count: nat)
    requires Valid(img)
    requires var ps := BoxPoints(startX, XEnd(img, startX, size), startY, YEnd(img, startY, size));
             && count == |ps|
             && r == ChannelSum(img, ps, 0) && g == ChannelSum(img, ps, 1) && b == ChannelSum(img, ps, 2)
    ensures BlockAverage(img, startX, startY, size) == Divide(r, g, b, count)
  {
  }

  lemma NextRow(x0: nat, x1: nat, y0: nat, y: nat)
    requires x0 <= x1 && y0 <= y
    ensures BoxPoints(x0, x1, y0, y + 1) == BoxPoints(x0, x1, y0, y) + RowPoints(y, x0, x1)
  {
  }

  /** Leaving `for (v = start; v < start + size && v < bound; v++)` from a
      value between start and the loop's end means v is that end. */
  lemma LoopExit(v: nat, start: nat, size: int, bound: nat)
    requires start <= v <= Arith.Max(start, Min(start + size, bound))
    requires !(v < start + size && v < bound)
    ensures v == Arith.Max(start, Min(start + size, bound))
  {
  }

  /** getAverageColor with the source's two loops and four accumulators. */
  method AverageColor(img: Image, startX: nat, startY: nat, size: int) returns (c: Option<Color>)
    requires Valid(img)
    ensures c == BlockAverage(img, startX, startY, size)
  {
    ghost var xEnd, yEnd := XEnd(img, startX, size), YEnd(img, startY, size);
    ghost var seen: seq<Point> := [];
    var r, g, b, count := 0, 0, 0, 0;
    var y := startY;
    while y < startY + size && y < img.height
      invariant startY <= y <= yEnd
      invariant seen == BoxPoints(startX, xEnd, startY, y)
      invariant AllInBounds(img, seen) && count == |seen|
      invariant r == ChannelSum(img, seen, 0)
      invariant g == ChannelSum(img, seen, 1)
      invariant b == ChannelSum(img, seen, 2)
      decreases img.height - y
    {
      r, g, b, count := SumRow(img, startX, size, y, seen, r, g, b, count);
      NextRow(startX, xEnd, startY, y);
      seen := seen + RowPoints(y, startX, xEnd);
      y := y + 1;
    }
    LoopExit(y, startY, size, img.height);
    DivideSums(img, startX, startY, size, r, g, b, count);
    c := Divide(r, g, b, count);
  }
}
