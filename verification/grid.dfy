/** The cell loop of generateHtmlCssGrid (script.js:76-109): one averaged
    colour per cellSize x cellSize block of a gridSize x gridSize canvas, in
    row-major order. */
module Grid {
  import opened Wrappers
  import opened Pixels
  import opened Averager
  import Arith

  /** The buffer getImageData(0, 0, gridSize, gridSize) returns. */
  predicate IsCanvas(img: Image, gridSize: nat) {
    Valid(img) && img.width == gridSize && img.height == gridSize
  }

  /** How often the body of `for (v = 0; v < n; v += step)` runs. */
  function LoopCount(n: int, step: nat): nat
    requires step > 0
    decreases n
  {
    if n <= 0 then 0 else 1 + LoopCount(n - step, step)
  }

  /** Cells per row, and rows, that the rasterizer emits. */
  function Columns(gridSize: nat, cellSize: nat): nat
    requires cellSize > 0
  {
    LoopCount(gridSize, cellSize)
  }

  /** The loop runs ceil(n / step) times: the last value of v is below n, the
      next one is not. */
  lemma {:induction false} LoopCountIsCeiling(n: nat, step: nat)
    requires step > 0
    ensures (LoopCount(n, step) - 1) * step < n <= LoopCount(n, step) * step
    decreases n
  {
    if n > 0 {
      if n - step > 0 {
        LoopCountIsCeiling(n - step, step);
      }
    }
  }

  /** When cellSize divides gridSize there are gridSize / cellSize columns. */
  lemma {:induction false} ColumnsExact(gridSize: nat, cellSize: nat)
    requires cellSize > 0 && gridSize % cellSize == 0
    ensures Columns(gridSize, cellSize) == gridSize / cellSize
    ensures Columns(gridSize, cellSize) * cellSize == gridSize
    decreases gridSize
  {
    if gridSize > 0 {
      assert gridSize >= cellSize;
      Arith.DivModShift(gridSize, cellSize);
      ColumnsExact(gridSize - cellSize, cellSize);
    }
  }

  /** The colour of the cell whose block starts at (x, y). Every such block
      has its origin inside the canvas, so the average is never NaN. */
  function CellColor(img: Image, gridSize: nat, cellSize: nat, x: nat, y: nat): (c: Color)
    requires IsCanvas(img, gridSize) && cellSize > 0 && x < gridSize && y < gridSize
    ensures ValidColor(c)
    ensures BlockAverage(img, x, y, cellSize) == Some(c)
  {
    BlockAverage(img, x, y, cellSize).value
  }

  /** Block origins visited by the inner loop over x for the row at y:
      x, x + cellSize, ... while below gridSize. */
  function RowOrigins(gridSize: nat, cellSize: nat, y: nat, x: nat): (os: seq<Point>)
    requires cellSize > 0
    ensures |os| == LoopCount(gridSize - x, cellSize)
    ensures forall i :: 0 <= i < |os| ==> os[i].x < gridSize && os[i].y == y
    decreases gridSize - x
  {
    if x >= gridSize then []
    else [Point(x, y)] + RowOrigins(gridSize, cellSize, y, x + cellSize)
  }

  /** Block origins visited by both loops from row y on, in row-major order. */
  function Origins(gridSize: nat, cellSize: nat, y: nat): (os: seq<Point>)
    requires cellSize > 0
    ensures |os| == LoopCount(gridSize - y, cellSize) * Columns(gridSize, cellSize)
    ensures forall i :: 0 <= i < |os| ==> os[i].x < gridSize && y <= os[i].y < gridSize
    decreases gridSize - y
  {
    if y >= gridSize then []
    else
      Arith.MulSucc(LoopCount(gridSize - y - cellSize, cellSize), Columns(gridSize, cellSize));
      RowOrigins(gridSize, cellSize, y, 0) + Origins(gridSize, cellSize, y + cellSize)
  }

  /** The cells generateHtmlCssGrid appends to its container: the block
      average at each origin the two loops visit, in order. */
  function Rasterize(img: Image, gridSize: nat, cellSize: nat): (cells: seq<Color>)
    requires IsCanvas(img, gridSize) && cellSize > 0
    ensures |cells| == Columns(gridSize, cellSize) * Columns(gridSize, cellSize)
    ensures forall k :: 0 <= k < |cells| ==> ValidColor(cells[k])
  {
    var os := Origins(gridSize, cellSize, 0);
    seq(|os|, k requires 0 <= k < |os| => CellColor(img, gridSize, cellSize, os[k].x, os[k].y))
  }

  /** The block origin of the k-th cell in row-major order. */
  function CellOrigin(k: nat, gridSize: nat, cellSize: nat): Point
    requires cellSize > 0 && gridSize > 0
  {
    var cols := Columns(gridSize, cellSize);
    assert cols > 0;
    Point((k % cols) * cellSize, (k / cols) * cellSize)
  }

  lemma {:induction false} RowOriginsAt(gridSize: nat, cellSize: nat, y: nat, x: nat, k: nat)
    requires cellSize > 0 && k < |RowOrigins(gridSize, cellSize, y, x)|
    ensures RowOrigins(gridSize, cellSize, y, x)[k].x == x + k * cellSize
    ensures RowOrigins(gridSize, cellSize, y, x)[k].y == y
    decreases k
  {
    if k > 0 {
      RowOriginsAt(gridSize, cellSize, y, x + cellSize, k - 1);
      Arith.MulSucc(k - 1, cellSize);
    }
  }

  lemma {:induction false} OriginsAt(gridSize: nat, cellSize: nat, y: nat, k: nat)
    requires cellSize > 0 && gridSize > 0 && k < |Origins(gridSize, cellSize, y)|
    ensures var cols := Columns(gridSize, cellSize);
            && cols > 0
            && Origins(gridSize, cellSize, y)[k].x == (k % cols) * cellSize
            && Origins(gridSize, cellSize, y)[k].y == y + (k / cols) * cellSize
    decreases gridSize - y
  {
    var cols := Columns(gridSize, cellSize);
    var row := RowOrigins(gridSize, cellSize, y, 0);
    assert y < gridSize;
    assert |row| == cols > 0;
    if k < cols {
      Arith.DivModUnique(k, cols, 0, k);
      RowOriginsAt(gridSize, cellSize, y, 0, k);
      assert Origins(gridSize, cellSize, y)[k] == row[k];
    } else {
      Arith.DivModShift(k, cols);
      OriginsAt(gridSize, cellSize, y + cellSize, k - cols);
      Arith.MulSucc((k - cols) / cols, cellSize);
    }
  }

  /** Rasterization yields Columns^2 cells and cell k is the average of the
      block whose origin is CellOrigin(k). */
  lemma RasterizeCells(img: Image, gridSize: nat, cellSize: nat)
    requires IsCanvas(img, gridSize) && cellSize > 0 && gridSize > 0
    ensures var cells := Rasterize(img, gridSize, cellSize);
            && |cells| == Columns(gridSize, cellSize) * Columns(gridSize, cellSize)
            && forall k :: 0 <= k < |cells| ==>
                 var o := CellOrigin(k, gridSize, cellSize);
                 o.x < gridSize && o.y < gridSize
                 && BlockAverage(img, o.x, o.y, cellSize) == Some(cells[k])
  {
    var cells := Rasterize(img, gridSize, cellSize);
    forall k | 0 <= k < |cells|
      ensures var o := CellOrigin(k, gridSize, cellSize);
              o.x < gridSize && o.y < gridSize
              && BlockAverage(img, o.x, o.y, cellSize) == Some(cells[k])
    {
      OriginsAt(gridSize, cellSize, 0, k);
    }
  }

  /** When cellSize divides gridSize there are exactly (gridSize / cellSize)^2 cells. */
  lemma RasterizeCount(img: Image, gridSize: nat, cellSize: nat)
    requires IsCanvas(img, gridSize) && cellSize > 0 && gridSize % cellSize == 0
    ensures |Rasterize(img, gridSize, cellSize)| == (gridSize / cellSize) * (gridSize / cellSize)
  {
    ColumnsExact(gridSize, cellSize);
  }

  /** The rasterized cells do not depend on the alpha bytes of the canvas. */
  lemma RasterizeIgnoresAlpha(a: Image, b: Image, gridSize: nat, cellSize: nat)
    requires IsCanvas(a, gridSize) && IsCanvas(b, gridSize) && SameRgb(a, b) && cellSize > 0
    ensures Rasterize(a, gridSize, cellSize) == Rasterize(b, gridSize, cellSize)
  {
    if gridSize > 0 {
      var ca, cb := Rasterize(a, gridSize, cellSize), Rasterize(b, gridSize, cellSize);
      RasterizeCells(a, gridSize, cellSize);
      RasterizeCells(b, gridSize, cellSize);
      forall k | 0 <= k < |ca|
        ensures ca[k] == cb[k]
      {
        var o := CellOrigin(k, gridSize, cellSize);
        AverageIgnoresAlpha(a, b, o.x, o.y, cellSize);
      }
    }
  }

  /** A canvas of one colour rasterizes to cells of exactly that colour. */
  lemma RasterizeUniform(img: Image, gridSize: nat, cellSize: nat, col: Color)
    requires IsCanvas(img, gridSize) && cellSize > 0
    requires forall p: Point :: InBounds(img, p) ==> PixelColor(img, p) == col
    ensures forall k :: 0 <= k < |Rasterize(img, gridSize, cellSize)| ==> Rasterize(img, gridSize, cellSize)[k] == col
  {
    if gridSize > 0 {
      var cells := Rasterize(img, gridSize, cellSize);
      RasterizeCells(img, gridSize, cellSize);
      forall k | 0 <= k < |cells|
        ensures cells[k] == col
      {
        var o := CellOrigin(k, gridSize, cellSize);
        UniformBlock(img, o.x, o.y, cellSize, col);
      }
    }
  }
}
