/** The size tables (script.js:2-13), generateDynamicSteps (script.js:39-41)
    and the way the upload handler and the ZIP export hand one cell size to
    both the grid and its SVG (script.js:188, 285-287). */
module Config {
  import opened Wrappers
  import opened Pixels
  import opened Averager
  import Grid
  import Svg
  import Arith

  /** The grid sizes, in the order the grids are built. */
  const GridSizes: seq<nat> := [16, 32, 64, 128, 150, 180, 192, 256, 512]

  /** The smallest cell size of each grid. */
  const StartValues: map<nat, nat> :=
    map[16 := 1, 32 := 2, 64 := 4, 128 := 8, 150 := 10, 180 := 15, 192 := 8, 256 := 16, 512 := 32]

  /** The two tables list the same sizes, the sizes ascend, and every start
      value is a positive divisor of its size. */
  lemma TablesAgree()
    ensures forall g :: g in StartValues <==> g in GridSizes
    ensures forall i, j :: 0 <= i < j < |GridSizes| ==> GridSizes[i] < GridSizes[j]
    ensures forall g :: g in GridSizes ==> StartValues[g] > 0 && g % StartValues[g] == 0
  {
  }

  /** startValues[gridSize] for a configured size. */
  function StartValue(gridSize: nat): (c: nat)
    requires gridSize in GridSizes
    ensures c > 0 && gridSize % c == 0
  {
    StartValues[gridSize]
  }

  /** The cell sizes offered for a grid: the start value, doubled twice. */
  function DynamicSteps(startValue: nat): (steps: seq<nat>)
    ensures |steps| == 3 && steps[0] == startValue
    ensures forall i :: 0 < i < |steps| ==> steps[i] == 2 * steps[i - 1]
  {
    [startValue, startValue * 2, startValue * 4]
  }

  /** What gridContainers records for one size: the steps and the cells the
      container holds after generateHtmlCssGrid. */
  datatype GridEntry = GridEntry(gridSize: nat, steps: seq<nat>, cells: seq<Color>)

  predicate WellFormed(e: GridEntry) {
    e.gridSize > 0 && |e.steps| > 0 && e.steps[0] > 0
  }

  /** One iteration of the upload handler: steps from the start value, cells
      rasterized at the start value from the gridSize x gridSize canvas. */
  function BuildEntry(gridSize: nat, canvas: Image): (e: GridEntry)
    requires gridSize in GridSizes && Grid.IsCanvas(canvas, gridSize)
    ensures WellFormed(e) && e.gridSize == gridSize && |e.steps| == 3
    ensures forall k :: 0 <= k < |e.cells| ==> ValidColor(e.cells[k])
  {
    var c := StartValue(gridSize);
    GridEntry(gridSize, DynamicSteps(c), Grid.Rasterize(canvas, gridSize, c))
  }

  /** A canvas for every configured size, in table order. */
  predicate CanvasesFit(canvases: seq<Image>) {
    |canvases| == |GridSizes| && forall i :: 0 <= i < |canvases| ==> Grid.IsCanvas(canvases[i], GridSizes[i])
  }

  /** All grids, one per configured size, in table order. */
  function BuildAll(canvases: seq<Image>): (es: seq<GridEntry>)
    requires CanvasesFit(canvases)
    ensures |es| == |GridSizes|
    ensures forall i :: 0 <= i < |es| ==> WellFormed(es[i]) && es[i].gridSize == GridSizes[i]
  {
    seq(|GridSizes|, i requires 0 <= i < |GridSizes| => BuildEntry(GridSizes[i], canvases[i]))
  }

  /** generateSvgForGrid(gridSize, steps[0], container) in saveAllGridsAsZip. */
  function EntrySvg(e: GridEntry): (doc: Svg.SvgDoc)
    requires WellFormed(e)
    ensures doc.width == doc.height == e.gridSize && |doc.rects| == |e.cells|
  {
    Svg.GenerateSvg(e.gridSize, e.steps[0], e.cells)
  }

  /** The SVG is laid out with the cell size the grid was built with:
      steps[0] is startValues[gridSize], and the grid holds
      (gridSize / startValue)^2 cells. */
  lemma SvgCellSizeIsGridCellSize(gridSize: nat, canvas: Image)
    requires gridSize in GridSizes && Grid.IsCanvas(canvas, gridSize)
    ensures var e := BuildEntry(gridSize, canvas);
            && e.steps == [StartValue(gridSize), 2 * StartValue(gridSize), 4 * StartValue(gridSize)]
            && |e.cells| == (gridSize / e.steps[0]) * (gridSize / e.steps[0])
  {
    Grid.RasterizeCount(canvas, gridSize, StartValue(gridSize));
  }

  /** For any cell size dividing the canvas, rect i of the SVG of the
      rasterized grid has the origin of the block averaged for cell i, side
      cellSize, and the colour of cell i. */
  lemma GridSvgAgree(gridSize: nat, cellSize: nat, canvas: Image)
    requires Grid.IsCanvas(canvas, gridSize) && gridSize > 0 && cellSize > 0 && gridSize % cellSize == 0
    ensures var cells := Grid.Rasterize(canvas, gridSize, cellSize);
            var rects := Svg.SvgRects(gridSize, cellSize, cells);
            forall i :: 0 <= i < |rects| ==>
              && rects[i].x == Grid.CellOrigin(i, gridSize, cellSize).x
              && rects[i].y == Grid.CellOrigin(i, gridSize, cellSize).y
              && rects[i].width == rects[i].height == cellSize
              && rects[i].fill == cells[i]
              && BlockAverage(canvas, rects[i].x, rects[i].y, cellSize) == Some(rects[i].fill)
  {
    var cells := Grid.Rasterize(canvas, gridSize, cellSize);
    Svg.RectsMatchCells(gridSize, cellSize, cells);
    Grid.RasterizeCells(canvas, gridSize, cellSize);
  }

  /** For any cell size dividing the canvas, the SVG of the rasterized grid,
      drawn, shows at every pixel the average of the block containing it. */
  lemma GridSvgPaintsBlocks(gridSize: nat, cellSize: nat, canvas: Image, px: nat, py: nat)
    requires Grid.IsCanvas(canvas, gridSize) && gridSize > 0 && cellSize > 0 && gridSize % cellSize == 0
    requires px < gridSize && py < gridSize
    ensures Svg.Paint(Svg.SvgRects(gridSize, cellSize, Grid.Rasterize(canvas, gridSize, cellSize)), px, py)
              == BlockAverage(canvas, Arith.RoundDown(px, cellSize), Arith.RoundDown(py, cellSize), cellSize)
  {
    var cells := Grid.Rasterize(canvas, gridSize, cellSize);
    var cols := gridSize / cellSize;
    Svg.DividingLayout(gridSize, cellSize);
    Grid.RasterizeCount(canvas, gridSize, cellSize);
    Grid.ColumnsExact(gridSize, cellSize);
    Svg.SvgReproducesCells(gridSize, cellSize, cols, cells, px, py);
    var k := Svg.CellIndexAt(px, py, cellSize, cols);
    Svg.CoordinateBelowCols(px, cellSize, cols);
    Arith.DivModUnique(k, cols, py / cellSize, px / cellSize);
    Grid.RasterizeCells(canvas, gridSize, cellSize);
    assert Grid.CellOrigin(k, gridSize, cellSize) == Point(Arith.RoundDown(px, cellSize), Arith.RoundDown(py, cellSize));
  }

  /** Rect i of an exported SVG has the origin of the block averaged for
      cell i, side startValue, and the colour of cell i. */
  lemma EntrySvgMatchesGrid(gridSize: nat, canvas: Image)
    requires gridSize in GridSizes && Grid.IsCanvas(canvas, gridSize)
    ensures var e := BuildEntry(gridSize, canvas);
            var rects := EntrySvg(e).rects;
            var c := StartValue(gridSize);
            forall i :: 0 <= i < |rects| ==>
              && rects[i].x == Grid.CellOrigin(i, gridSize, c).x
              && rects[i].y == Grid.CellOrigin(i, gridSize, c).y
              && rects[i].width == rects[i].height == c
              && rects[i].fill == e.cells[i]
              && BlockAverage(canvas, rects[i].x, rects[i].y, c) == Some(rects[i].fill)
  {
    var e, c := BuildEntry(gridSize, canvas), StartValue(gridSize);
    assert EntrySvg(e).rects == Svg.SvgRects(gridSize, c, Grid.Rasterize(canvas, gridSize, c));
    GridSvgAgree(gridSize, c, canvas);
  }

  /** The exported SVG, drawn, shows at every pixel of the canvas the average
      of the cell block that contains the pixel. */
  lemma EntrySvgPaintsBlocks(gridSize: nat, canvas: Image, px: nat, py: nat)
    requires gridSize in GridSizes && Grid.IsCanvas(canvas, gridSize)
    requires px < gridSize && py < gridSize
    ensures var c := StartValue(gridSize);
            Svg.Paint(EntrySvg(BuildEntry(gridSize, canvas)).rects, px, py)
              == BlockAverage(canvas, Arith.RoundDown(px, c), Arith.RoundDown(py, c), c)
  {
    var e, c := BuildEntry(gridSize, canvas), StartValue(gridSize);
    assert EntrySvg(e).rects == Svg.SvgRects(gridSize, c, Grid.Rasterize(canvas, gridSize, c));
    GridSvgPaintsBlocks(gridSize, c, canvas, px, py);
  }

  /** A solid red 4 x 4 canvas. */
  function RedCanvas(): (img: Image)
    ensures Grid.IsCanvas(img, 4)
  {
    Image(seq(64, i => if i % 4 == 1 || i % 4 == 2 then 0 else 255), 4, 4)
  }

  /** Four cells of side 2 on a 4 x 4 canvas are laid out as its quadrants,
      in row-major order. */
  lemma QuadrantRects(fill: Color)
    ensures Svg.SvgRects(4, 2, [fill, fill, fill, fill]) == [
              Svg.Rect(0, 0, 2, 2, fill), Svg.Rect(2, 0, 2, 2, fill),
              Svg.Rect(0, 2, 2, 2, fill), Svg.Rect(2, 2, 2, 2, fill)]
  {
    var rects := Svg.SvgRects(4, 2, [fill, fill, fill, fill]);
    assert rects[0] == Svg.RectAt(0, 4, 2, fill);
    assert rects[1] == Svg.RectAt(1, 4, 2, fill);
    assert rects[2] == Svg.RectAt(2, 4, 2, fill);
    assert rects[3] == Svg.RectAt(3, 4, 2, fill);
  }

  /** With gridSize 4 and cellSize 2 a solid red canvas gives four red cells
      and rects at (0,0), (2,0), (0,2) and (2,2). */
  lemma RedExample()
    ensures var red := Color(255, 0, 0);
            var cells := Grid.Rasterize(RedCanvas(), 4, 2);
            && cells == [red, red, red, red]
            && Svg.SvgRects(4, 2, cells) == [
                 Svg.Rect(0, 0, 2, 2, red), Svg.Rect(2, 0, 2, 2, red),
                 Svg.Rect(0, 2, 2, 2, red), Svg.Rect(2, 2, 2, 2, red)]
  {
    var img, red := RedCanvas(), Color(255, 0, 0);
    forall p: Point | InBounds(img, p)
      ensures PixelColor(img, p) == red
    {
      var i := ByteIndex(img, p, 0);
      assert img.data[i] == 255 && img.data[i + 1] == 0 && img.data[i + 2] == 0;
    }
    Grid.RasterizeUniform(img, 4, 2, red);
    Grid.RasterizeCount(img, 4, 2);
    var cells := Grid.Rasterize(img, 4, 2);
    assert cells == [red, red, red, red];
    QuadrantRects(red);
  }
}
