/** generateSvgForGrid (script.js:132-155): one `rect` per cell of the
    container, placed from the cell's position in the child list alone. */
module Svg {
  import opened Wrappers
  import opened Pixels
  import Grid
  import Arith

  /** A `rect` element: x, y, width, height and fill. */
  datatype Rect = Rect(x: int, y: int, width: int, height: int, fill: Color)

  /** The SVG document: a gridSize x gridSize canvas holding the rects in
      the order they are appended. */
  datatype SvgDoc = SvgDoc(width: nat, height: nat, rects: seq<Rect>)

  /** The rect built for the cell at `index`. The source divides by the real
      quotient gridSize / cellSize; written exactly, the row is
      floor(index * cellSize / gridSize) and col * cellSize is
      (index * cellSize) mod gridSize. */
  function RectAt(index: nat, gridSize: nat, cellSize: nat, fill: Color): (r: Rect)
    requires gridSize > 0 && cellSize > 0
    ensures r.width == r.height == cellSize && r.fill == fill
    ensures 0 <= r.x < gridSize && 0 <= r.y && r.y % cellSize == 0
    ensures (r.y / cellSize) * gridSize + r.x == index * cellSize
  {
    var row := (index * cellSize) / gridSize;
    Arith.ScaledRow(index * cellSize, gridSize, cellSize);
    Rect((index * cellSize) % gridSize, row * cellSize, cellSize, cellSize, fill)
  }

  /** The rects for `cells`, in child order: rect i describes cell i. */
  function SvgRects(gridSize: nat, cellSize: nat, cells: seq<Color>): (rects: seq<Rect>)
    requires gridSize > 0 && cellSize > 0
    ensures |rects| == |cells|
    ensures forall i :: 0 <= i < |rects| ==> rects[i] == RectAt(i, gridSize, cellSize, cells[i])
  {
    if |cells| == 0 then []
    else
      var n := |cells| - 1;
      SvgRects(gridSize, cellSize, cells[..n]) + [RectAt(n, gridSize, cellSize, cells[n])]
  }

  function GenerateSvg(gridSize: nat, cellSize: nat, cells: seq<Color>): (doc: SvgDoc)
    requires gridSize > 0 && cellSize > 0
    ensures doc.width == doc.height == gridSize && |doc.rects| == |cells|
  {
    SvgDoc(gridSize, gridSize, SvgRects(gridSize, cellSize, cells))
  }

  /** A grid of cols x cols cells of side cellSize filling the canvas. */
  predicate Layout(gridSize: nat, cellSize: nat, cols: nat) {
    cellSize > 0 && cols > 0 && gridSize == cols * cellSize
  }

  /** When cellSize divides gridSize the layout has gridSize / cellSize columns. */
  lemma DividingLayout(gridSize: nat, cellSize: nat)
    requires cellSize > 0 && gridSize > 0 && gridSize % cellSize == 0
    ensures Layout(gridSize, cellSize, gridSize / cellSize)
  {
    var cols := gridSize / cellSize;
    assert gridSize == cols * cellSize + gridSize % cellSize;
    if cols <= 0 {
      Arith.MulMonotone(cols, 0, cellSize);
    }
  }

  /** The index of the cell covering pixel (px, py). */
  function CellIndexAt(px: int, py: int, cellSize: nat, cols: nat): int
    requires cellSize > 0
  {
    (py / cellSize) * cols + px / cellSize
  }

  /** Rect i sits in column i mod cols and row i div cols. */
  lemma RectAtGridForm(index: nat, gridSize: nat, cellSize: nat, cols: nat, fill: Color)
    requires Layout(gridSize, cellSize, cols)
    ensures RectAt(index, gridSize, cellSize, fill).x == (index % cols) * cellSize
    ensures RectAt(index, gridSize, cellSize, fill).y == (index / cols) * cellSize
  {
    var q, c := index / cols, index % cols;
    assert index == q * cols + c;
    Arith.MulDistrib(q, cols, c, cellSize);
    Arith.MulMonotone(c, cols - 1, cellSize);
    Arith.MulMonotone(0, c, cellSize);
    Arith.MulSucc(cols - 1, cellSize);
    Arith.DivModUnique(index * cellSize, gridSize, q, c * cellSize);
  }

  /** Rect i has the origin of the block averaged for cell i. */
  lemma RectsMatchCells(gridSize: nat, cellSize: nat, cells: seq<Color>)
    requires cellSize > 0 && gridSize > 0 && gridSize % cellSize == 0
    ensures var rects := SvgRects(gridSize, cellSize, cells);
            forall i :: 0 <= i < |rects| ==>
              && rects[i].x == Grid.CellOrigin(i, gridSize, cellSize).x
              && rects[i].y == Grid.CellOrigin(i, gridSize, cellSize).y
              && rects[i].width == rects[i].height == cellSize
              && rects[i].fill == cells[i]
  {
    Grid.ColumnsExact(gridSize, cellSize);
    DividingLayout(gridSize, cellSize);
    var rects := SvgRects(gridSize, cellSize, cells);
    forall i | 0 <= i < |rects|
      ensures rects[i].x == Grid.CellOrigin(i, gridSize, cellSize).x
      ensures rects[i].y == Grid.CellOrigin(i, gridSize, cellSize).y
    {
      RectAtGridForm(i, gridSize, cellSize, gridSize / cellSize, cells[i]);
    }
  }

  lemma QuotientBelow(i: nat, cols: nat)
    requires 0 < cols && i < cols * cols
    ensures i / cols < cols
  {
    assert i == (i / cols) * cols + i % cols;
    if i / cols >= cols {
      Arith.MulMonotone(cols, i / cols, cols);
    }
  }

  lemma RectInsideCanvas(index: nat, gridSize: nat, cellSize: nat, cols: nat, fill: Color)
    requires Layout(gridSize, cellSize, cols) && index < cols * cols
    ensures var r := RectAt(index, gridSize, cellSize, fill);
            0 <= r.x <= gridSize - cellSize && 0 <= r.y <= gridSize - cellSize
  {
    RectAtGridForm(index, gridSize, cellSize, cols, fill);
    QuotientBelow(index, cols);
    Arith.MulSucc(cols - 1, cellSize);
    Arith.MulMonotone(index % cols, cols - 1, cellSize);
    Arith.MulMonotone(index / cols, cols - 1, cellSize);
    Arith.MulMonotone(0, index % cols, cellSize);
    Arith.MulMonotone(0, index / cols, cellSize);
  }

  /** Every rect of a full grid lies inside the canvas. */
  lemma RectsInsideCanvas(gridSize: nat, cellSize: nat, cols: nat, cells: seq<Color>)
    requires Layout(gridSize, cellSize, cols) && |cells| == cols * cols
    ensures var rects := SvgRects(gridSize, cellSize, cells);
            forall i :: 0 <= i < |rects| ==>
              0 <= rects[i].x <= gridSize - cellSize && 0 <= rects[i].y <= gridSize - cellSize
  {
    var rects := SvgRects(gridSize, cellSize, cells);
    forall i | 0 <= i < |rects|
      ensures 0 <= rects[i].x <= gridSize - cellSize && 0 <= rects[i].y <= gridSize - cellSize
    {
      RectInsideCanvas(i, gridSize, cellSize, cols, cells[i]);
    }
  }

  /** px lies in [c * size, c * size + size) exactly when px div size is c. */
  lemma CellOfCoordinate(px: int, c: int, size: nat)
    requires size > 0
    ensures c * size <= px < c * size + size <==> px / size == c
  {
    if c * size <= px < c * size + size {
      Arith.DivModUnique(px, size, c, px - c * size);
    }
    if px / size == c {
      Arith.FloorOfQuotient(px, size);
    }
  }

  lemma CoordinateBelowCols(px: int, size: nat, cols: nat)
    requires size > 0 && 0 <= px < cols * size
    ensures 0 <= px / size < cols
  {
    var q := px / size;
    Arith.FloorOfQuotient(px, size);
    if q >= cols {
      Arith.MulMonotone(cols, q, size);
    }
    if q < 0 {
      Arith.MulMonotone(q + 1, 0, size);
    }
  }

  predicate Contains(r: Rect, px: int, py: int) {
    r.x <= px < r.x + r.width && r.y <= py < r.y + r.height
  }

  /** The only cell whose rect covers pixel (px, py) is CellIndexAt(px, py). */
  lemma ContainsIff(index: nat, gridSize: nat, cellSize: nat, cols: nat, fill: Color, px: int, py: int)
    requires Layout(gridSize, cellSize, cols)
    requires 0 <= px < gridSize && 0 <= py < gridSize
    ensures Contains(RectAt(index, gridSize, cellSize, fill), px, py)
            <==> index == CellIndexAt(px, py, cellSize, cols)
  {
    RectAtGridForm(index, gridSize, cellSize, cols, fill);
    var c, q := index % cols, index / cols;
    CellOfCoordinate(px, c, cellSize);
    CellOfCoordinate(py, q, cellSize);
    assert index == q * cols + c;
    if index == CellIndexAt(px, py, cellSize, cols) {
      CoordinateBelowCols(px, cellSize, cols);
      Arith.DivModUnique(index, cols, py / cellSize, px / cellSize);
    }
  }

  function Overlap(a: Rect, b: Rect): bool {
    a.x < b.x + b.width && b.x < a.x + a.width && a.y < b.y + b.height && b.y < a.y + a.height
  }

  /** Distinct cells of a full grid get rects that share no pixel. */
  lemma RectsDisjoint(gridSize: nat, cellSize: nat, cols: nat, cells: seq<Color>, i: nat, j: nat)
    requires Layout(gridSize, cellSize, cols) && |cells| == cols * cols
    requires i < |cells| && j < |cells| && i != j
    ensures !Overlap(SvgRects(gridSize, cellSize, cells)[i], SvgRects(gridSize, cellSize, cells)[j])
  {
    var rects := SvgRects(gridSize, cellSize, cells);
    var a, b := rects[i], rects[j];
    if Overlap(a, b) {
      var px, py := Arith.Max(a.x, b.x), Arith.Max(a.y, b.y);
      RectInsideCanvas(i, gridSize, cellSize, cols, cells[i]);
      RectInsideCanvas(j, gridSize, cellSize, cols, cells[j]);
      assert Contains(a, px, py) && Contains(b, px, py);
      ContainsIff(i, gridSize, cellSize, cols, cells[i], px, py);
      ContainsIff(j, gridSize, cellSize, cols, cells[j], px, py);
      assert false;
    }
  }

  /** The colour an SVG renderer shows at pixel (px, py): the fill of the
      last rect that covers it, None where no rect does. */
  function Paint(rects: seq<Rect>, px: int, py: int): Option<Color> {
    if |rects| == 0 then None
    else if Contains(rects[|rects| - 1], px, py) then Some(rects[|rects| - 1].fill)
    else Paint(rects[..|rects| - 1], px, py)
  }

  lemma {:induction false} PaintSvgRects(gridSize: nat, cellSize: nat, cols: nat, cells: seq<Color>, px: int, py: int)
    requires Layout(gridSize, cellSize, cols)
    requires 0 <= px < gridSize && 0 <= py < gridSize
    ensures var k := CellIndexAt(px, py, cellSize, cols);
            Paint(SvgRects(gridSize, cellSize, cells), px, py) == if 0 <= k < |cells| then Some(cells[k]) else None
  {
    if |cells| > 0 {
      var n := |cells| - 1;
      var rects := SvgRects(gridSize, cellSize, cells);
      assert rects[..n] == SvgRects(gridSize, cellSize, cells[..n]);
      ContainsIff(n, gridSize, cellSize, cols, cells[n], px, py);
      PaintSvgRects(gridSize, cellSize, cols, cells[..n], px, py);
    }
  }

  /** Drawing the SVG of a full grid reproduces, at every pixel of the
      canvas, the colour of the cell that covers that pixel. */
  lemma SvgReproducesCells(gridSize: nat, cellSize: nat, cols: nat, cells: seq<Color>, px: int, py: int)
    requires Layout(gridSize, cellSize, cols) && |cells| == cols * cols
    requires 0 <= px < gridSize && 0 <= py < gridSize
    ensures var k := CellIndexAt(px, py, cellSize, cols);
            && 0 <= k < |cells|
            && Paint(GenerateSvg(gridSize, cellSize, cells).rects, px, py) == Some(cells[k])
  {
    CoordinateBelowCols(px, cellSize, cols);
    CoordinateBelowCols(py, cellSize, cols);
    var k := CellIndexAt(px, py, cellSize, cols);
    Arith.MulMonotone(py / cellSize, cols - 1, cols);
    Arith.MulMonotone(0, py / cellSize, cols);
    Arith.MulSucc(cols - 1, cols);
    PaintSvgRects(gridSize, cellSize, cols, cells, px, py);
  }

  /** When cellSize is below gridSize and does not divide it, the rasterizer
      emits ceil(gridSize / cellSize) cells per row while the SVG wraps after
      gridSize / cellSize of them: with gridSize 5 and cellSize 2 cell 3 is
      averaged over the block at (0, 2) but drawn at (1, 2). A cellSize above
      gridSize gives one cell, at (0, 0) in both. No configured size is
      affected, since every start value divides its size. */
  lemma NonDividingMismatch(fill: Color)
    ensures Grid.Columns(5, 2) == 3
    ensures Grid.CellOrigin(3, 5, 2) == Point(0, 2)
    ensures RectAt(3, 5, 2, fill).x == 1 && RectAt(3, 5, 2, fill).y == 2
  {
    assert Grid.LoopCount(1, 2) == 1;
    assert Grid.LoopCount(3, 2) == 2;
  }
}
