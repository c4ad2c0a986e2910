# Icon grid generator: a Dafny model of its pixel-grid core

The icon generator takes an uploaded image and, for each of nine icon sizes,
draws it into a `gridSize x gridSize` canvas. It cuts the canvas into square
cells of side `cellSize` and colours each cell with the average colour of its
block. It rebuilds the grid as an SVG of `rect` elements and packs an SVG and
a PNG of every grid, plus a few fixed favicon aliases, into a ZIP archive.
This project models the integer logic at the centre of that pipeline and
proves the properties the program relies on.

- **`Averager`** models `getAverageColor`. It sums the red, green and blue
  bytes of the block pixels that lie inside the image and floor-divides each
  sum by the pixel count. A block with no pixel inside the image would divide
  by zero: its NaN channels are `None`. `BlockAverage` is the functional
  definition. `AverageColor` is the two nested loops of the source, proved
  equal to it.
- **`Grid`** models the cell loop of `generateHtmlCssGrid`: two `for` loops
  stepping by `cellSize`, which emit the block average at each origin in
  row-major order.
- **`Svg`** models the layout of `generateSvgForGrid`. It places `rect` `i` at
  column `i mod (G/C)` and row `floor(i / (G/C))`, computed from the child
  index alone. `Paint` says which colour a renderer shows at a pixel, so the
  SVG can be compared with the cells.
- **`Config`** models the `gridSizes` / `startValues` tables,
  `generateDynamicSteps`, and the way the upload handler and the ZIP export
  give one grid's cell size to both the grid and its SVG.
- **`Decimal`** models the property keys of `gridContainers`, which are
  `String(gridSize)`, and their reading back with `parseInt(key, 10)`.
- **`Packaging`** models the `zip.file` calls of `saveAllGridsAsZip`, and the
  archive those calls leave behind, as a map from file name to content.
- **`Pixels`**, **`Arith`** and **`Wrappers`** hold the RGBA buffer, a few
  arithmetic facts and `Option`.

The canvas is an RGBA byte buffer (`seq<int>`, four bytes per pixel, row-major).
Colours are integer triples. All arithmetic is exact.

Every configured start value divides its grid size. For such sizes, the
rasterizer and the SVG layout agree: cell `k` is averaged over the block at
`((k mod cols) * C, (k div cols) * C)`, with `cols = G / C`, and `rect` `k`
is drawn at exactly that origin. For a cell size smaller than the grid size
that does not divide it, the two disagree. The rasterizer emits `ceil(G / C)`
cells per row, but the SVG wraps after `G / C` of them.
`Svg.NonDividingMismatch` exhibits this with `G = 5`, `C = 2`. A cell size
larger than the grid size gives a single cell at (0, 0), which the SVG also
draws at (0, 0). No configured size and no code path of the program reaches
the disagreeing case, since only `steps[0]` is ever used to build or export
a grid.

## Model

| member | source | states |
|---|---|---|
| `Averager.BlockAverage` | script.js:158-180 | the average is defined exactly when the block origin is inside the image and `size > 0`, otherwise it is NaN (`None`); a defined average has every channel in 0..255 |
| `Averager.AverageColor` | script.js:158-180 | the two nested loops, with their running sums and count, return the same colour as the functional block average |
| `Averager.Visited` | script.js:165-166 | every pixel the two loops read lies inside the image (the exact set is in `VisitedExactly`) |
| `Averager.ChannelSum` | script.js:168-170 | an accumulated channel sum lies between 0 and 255 times the number of pixels read |
| `Averager.Divide` | script.js:175-179 | the return statement gives a colour if and only if the count is positive (a zero count gives NaN), and each channel is the floor of its sum divided by the count |
| `Averager.SumRow` | script.js:166-172 | the inner loop adds to r, g, b and count exactly the in-bounds pixels of one row of the block |
| `Averager.AverageIsFloorMean` | script.js:175-179 | each channel is the floor of the channel sum over the visited pixels divided by their number |
| `Averager.BlockCount` | script.js:165-166 | when the origin is inside the image and `size > 0`, the number of pixels averaged is `min(size, height - startY) * min(size, width - startX)` |
| `Averager.VisitedExactly` | script.js:165-166 | a pixel is read if and only if it lies in the block and inside the image |
| `Averager.VisitedDistinct` | script.js:165-166 | no pixel is read twice |
| `Averager.VisitedNonEmpty` | script.js:165-171 | some pixel is counted if and only if the origin is inside the image and `size > 0`, so the count is zero exactly in the NaN case |
| `Averager.UniformBlock` | script.js:168-179 | a block whose in-image pixels all have one colour averages to exactly that colour |
| `Averager.AverageIgnoresAlpha` | script.js:167-170 | two images that differ only in their alpha bytes give the same average for every block |
| `Grid.LoopCountIsCeiling` | script.js:94-95 | a loop `for (v = 0; v < n; v += step)` runs `ceil(n / step)` times |
| `Grid.ColumnsExact` | script.js:80-95 | when `cellSize` divides `gridSize`, the loops visit `gridSize / cellSize` origins per row, which is the `columns` value of the CSS grid |
| `Grid.CellColor` | script.js:97 | a block whose origin the loops visit always has a defined, in-range average (never NaN) |
| `Grid.RowOrigins` | script.js:95 | the inner loop from x visits `ceil((gridSize - x) / cellSize)` origins, all in row y and left of `gridSize` |
| `Grid.Origins` | script.js:94-95 | the two loops from row y visit `ceil((gridSize - y) / cellSize)` rows of `Columns` origins each, all inside the canvas |
| `Grid.Rasterize` | script.js:94-108 | one cell per visited origin (Columns squared in all) and every cell colour in 0..255 |
| `Grid.OriginsAt` | script.js:94-95 | the k-th origin the two loops visit from row y is `((k mod cols) * C, y + (k div cols) * C)` |
| `Grid.RasterizeCells` | script.js:94-107 | cell k is the average of the block whose origin is `((k mod cols) * C, (k div cols) * C)`, and that origin is inside the canvas |
| `Grid.RasterizeCount` | script.js:80-107 | when `cellSize` divides `gridSize`, there are exactly `(gridSize / cellSize)^2` cells |
| `Grid.RasterizeIgnoresAlpha` | script.js:94-107 | the cell sequence does not depend on the alpha bytes of the canvas |
| `Grid.RasterizeUniform` | script.js:94-107 | a one-colour canvas gives cells that all have that colour |
| `Svg.GenerateSvg` | script.js:132-155 | the document is `gridSize` wide and high, with one rect per child cell |
| `Svg.RectAt` | script.js:142-148 | rect i has side `cellSize` and the cell's fill; with the real quotient `G / C` written exactly, its x lies in `[0, G)`, its y is a multiple of C, and `(y / C) * G + x == i * C`. `RectAtGridForm` turns this into column `i mod cols`, row `i div cols` |
| `Svg.SvgRects` | script.js:140-152 | one rect per child, in child order, and rect i is built from cell i and its index alone |
| `Svg.DividingLayout` | script.js:142-143 | when C divides G, `G / C` is a positive whole number of columns that fill the canvas exactly |
| `Svg.RectAtGridForm` | script.js:142-146 | in a grid that fills the canvas, rect i is at column `i mod cols` and row `i div cols` |
| `Svg.RectsMatchCells` | script.js:142-149 | rect i has the origin of the block averaged for cell i, width and height `cellSize`, and the fill of cell i |
| `Svg.RectInsideCanvas` | script.js:145-148 | one rect of a full grid has both coordinates in `[0, gridSize - cellSize]` |
| `Svg.RectsInsideCanvas` | script.js:140-152 | every rect of a full grid has both coordinates in `[0, gridSize - cellSize]` |
| `Svg.ContainsIff` | script.js:142-148 | a pixel of the canvas lies in rect i if and only if i is the index of the cell covering that pixel |
| `Svg.RectsDisjoint` | script.js:140-152 | rects of distinct indices share no pixel |
| `Svg.PaintSvgRects` | script.js:140-152 | drawn in order, the rects show at each pixel the colour of the covering cell, or nothing if that cell is missing |
| `Svg.SvgReproducesCells` | script.js:132-155 | drawing the SVG of a full grid shows, at every canvas pixel, the colour of the cell that covers it |
| `Svg.NonDividingMismatch` | script.js:142-146 | with `gridSize` 5 and `cellSize` 2, cell 3 is averaged at (0, 2) but its rect is drawn at (1, 2) |
| `Config.TablesAgree` | script.js:2-13 | the two tables list the same sizes, the sizes ascend, and every start value is a positive divisor of its size |
| `Config.StartValue` | script.js:3-13 | the start value of every configured size is positive and divides it |
| `Config.DynamicSteps` | script.js:39-41 | three steps: the start value, then each step twice the one before |
| `Config.BuildEntry` | script.js:285-287 | the grid of a configured size has three steps and only in-range cell colours |
| `Config.BuildAll` | script.js:283-288 | one grid per configured size, in table order |
| `Config.EntrySvg` | script.js:188-191 | the exported SVG is `gridSize` square with one rect per cell of the grid |
| `Config.SvgCellSizeIsGridCellSize` | script.js:285-287 | `steps[0]`, the SVG cell size, is the start value the grid was built with, and the grid holds `(gridSize / steps[0])^2` cells |
| `Config.GridSvgAgree` | script.js:140-149 | for any dividing cell size, rect i of the rasterized grid has the origin and side of block i and the block's average as its fill |
| `Config.GridSvgPaintsBlocks` | script.js:140-149 | for any dividing cell size, the drawn SVG shows at every pixel the average of the block containing that pixel |
| `Config.EntrySvgMatchesGrid` | script.js:187-191 | the same agreement, for the SVG that the export writes for a configured size |
| `Config.EntrySvgPaintsBlocks` | script.js:187-191 | every pixel of the exported SVG shows the average of the start-value block of the canvas containing it |
| `Config.QuadrantRects` | script.js:142-148 | four cells of side 2 on a 4 x 4 canvas are drawn as its four quadrants, in row-major order |
| `Config.RedExample` | script.js:94-107 | a solid red 4 x 4 canvas with cell size 2 gives four red cells and rects at (0,0), (2,0), (0,2) and (2,2) |
| `Decimal.DecimalString` | script.js:67 | a property key is a non-empty digit string, with no leading zero unless the number is 0 |
| `Decimal.LeadingDigits` | script.js:208 | the digits `parseInt` reads: a digit prefix of the key, followed by no further digit |
| `Decimal.ParseInt` | script.js:208 | `parseInt(s, 10)` is a number if and only if s starts with a digit, otherwise it is NaN |
| `Decimal.DigitsValueOfString` | script.js:208 | the value of the digits of `String(n)` is n |
| `Decimal.ParseDecimalString` | script.js:208 | `parseInt` reads back the number `String(n)` wrote, whatever non-digit text follows it |
| `Decimal.DecimalStringInjective` | script.js:67 | two sizes have the same key if and only if they are equal |
| `Packaging.AliasWrites` | script.js:207-227 | the five tests write the alias of the size if the key parses to one of the five alias sizes (a PNG copy, or the SVG for 256), and nothing otherwise |
| `Packaging.SvgWrites` | script.js:187-192 | one SVG write per grid |
| `Packaging.PngWrites` | script.js:200-227 | a PNG callback writes the grid's `icon-GxG.png` first, and at most one alias after it |
| `Packaging.ArchiveWrites` | script.js:187-254 | every grid's SVG write comes first, under `icon-GxG.svg`, then `manifest.json` and `browserconfig.xml` with their fixed contents, then the PNG callbacks |
| `Packaging.ApplyWrites` | script.js:192-254 | the archive holds a file for every name written, and no name that was not written |
| `Packaging.ApplyDistinct` | script.js:192-254 | when no two writes share a name, every write survives in the archive with its content |
| `Packaging.ApplyDistinctSize` | script.js:192-254 | when no two writes share a name, the archive holds exactly one file per write |
| `Packaging.OrderFree` | script.js:195-229 | when no two writes share a name, any order of the same writes gives the same archive, so the order in which the PNG promises resolve does not matter |
| `Packaging.ClassifyIcon` | script.js:192-205 | `icon-GxG.svg` and `icon-GxG.png` read back as size G and their kind, and neither is one of the fixed names |
| `Packaging.ClassifyNameOf` | script.js:192-254 | every file name the export uses reads back as the file it names |
| `Packaging.NameOfInjective` | script.js:192-254 | two files of the archive have the same name if and only if they are the same file |
| `Packaging.PngWritesNamed` | script.js:205-227 | a PNG callback writes `icon-GxG.png` and, for the five alias sizes, the alias of G |
| `Packaging.AllPngWritesNamed` | script.js:195-229 | the PNG callbacks of all grids write, in grid order, the PNG and alias files of each grid |
| `Packaging.ArchiveNamed` | script.js:187-254 | the writes of the export are the SVG icons, the manifest and browserconfig files, then the PNG icons and aliases, each under its own name |
| `Packaging.AllPngTagsDistinct` | script.js:205-227 | for distinct sizes the PNG callbacks write distinct files, each belonging to one of the sizes |
| `Packaging.ArchiveTagsDistinct` | script.js:187-254 | for grids of distinct sizes, the export writes no file twice |
| `Packaging.ArchiveNamesDistinct` | script.js:187-254 | for grids of distinct sizes, no `zip.file` call overwrites another |
| `Packaging.BuiltGrids` | script.js:283-288 | the grids of one upload are well formed, and their sizes are the configured sizes, all different |
| `Packaging.Archive` | script.js:183-254 | the archive of one upload holds `manifest.json` and `browserconfig.xml` with their fixed contents |
| `Packaging.ArchiveIcons` | script.js:187-205 | every configured size G is in the archive as `icon-GxG.svg`, holding its grid's SVG, and as `icon-GxG.png`, holding its rendering |
| `Packaging.ArchiveAliases` | script.js:207-227 | each of the five aliases is in the archive: a copy of the PNG of its size, or for 256 the same SVG code as `icon-256x256.svg` |
| `Packaging.ArchiveFileCount` | script.js:187-254 | the archive holds 25 files: two icons for each of the nine sizes, five aliases, the manifest and the browserconfig file |
| `Packaging.GridPngTagCount` | script.js:207-227 | the PNG callbacks of the nine configured sizes write 14 files, since five sizes have an alias |

## Left out

- `ctx.drawImage` resampling of the uploaded image into the `gridSize x gridSize` canvas (script.js:85-92) is browser-defined interpolation. The model takes the resulting RGBA buffer as input.
- DOM construction, CSS grid styling, `createGridInterface`, the title click handlers, the copy-to-clipboard handler and `resetApp` are user interface only. The cells a container holds are the `seq<Color>` that `Grid.Rasterize` returns.
- `html2canvas` PNG encoding, the JSZip archive format, `Blob` / `URL.createObjectURL` download and `FileReader` / `Image` loading are foreign libraries and asynchronous I/O. A PNG is the token `PngRender(gridSize)`, and the archive is the map that the `zip.file` calls leave behind, where a later write to a name replaces an earlier one.
- The fixed text of `manifest.json` and `browserconfig.xml` (script.js:233-254) is constant, so these files are the tokens `ManifestJson` and `BrowserConfigXml`.
- Serialisation of the SVG to a string (`outerHTML`) is not modelled. The document is a `SvgDoc` value whose rects keep their order.
- Browser normalisation of the `backgroundColor` string read back into `fill` is not modelled: the fill is the cell's `Color`.
- Promise scheduling is not modelled. `ArchiveWrites` fixes one order: the SVG writes, then the two fixed files, then the PNG callbacks in grid order. `Packaging.OrderFree` shows that any other order of the same writes gives the same archive.
- `Packaging.Archive`: each export starts from an empty archive. In the program `zip` is one global JSZip object (script.js:20), and `resetApp` (script.js:26-31) does not clear it, so a second export writes into the first one's archive. The result is the same, because every export writes the same 25 names.
- The iteration order of `Object.entries(gridContainers)` is taken to be the ascending order of `gridSizes`, which is the order JavaScript uses for integer-like keys.
- Floating-point arithmetic is not modelled. `gridSize / cellSize` and the row and column of `generateSvgForGrid` are computed exactly over the rationals. This matches the program for every configured size, since all of them divide evenly.
- `Averager.BlockAverage`: block origins are natural numbers. The program never passes a negative `startX` or `startY`, and the model does not cover that case.
- `Decimal.ParseInt`: models `parseInt(s, 10)` only for strings without leading whitespace or sign. The keys passed to it are always plain digit strings.
- `Grid.RasterizeCount`: the exact count `(gridSize / cellSize)^2` is stated only when `cellSize` divides `gridSize`. `Grid.Rasterize` gives the general count, `Columns^2` with `Columns = ceil(gridSize / cellSize)`.
