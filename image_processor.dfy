/** The rectangle-decomposition engine of the converter (image_processor.go).

    A decoded image becomes a dense grid of 8-bit RGBA samples; the engine
    scans that grid row by row and covers every pixel that is not fully
    transparent with axis-aligned, single-coloured blocks.

    Coordinates follow the source: `x` is the column, `y` is the row, and a
    grid `g` is indexed `g[y][x]`. The source's `used` matrix, which the scan
    updates in place, is an `array2<bool>` indexed `used[y, x]`; the scan is
    specified by the function `Scan` over a value copy of that matrix (a
    "mask").
 */
module ImageProcessor {

  /** Go's `uint8`. */
  newtype uint8 = x: int | 0 <= x < 0x100

  /** Go's `uint32`, the type `color.Color.RGBA()` returns its channels in. */
  newtype uint32 = x: int | 0 <= x < 0x1_0000_0000

  /** One quantized pixel. */
  datatype ColorRGBA = ColorRGBA(R: uint8, G: uint8, B: uint8, A: uint8)

  /** One emitted rectangle: origin, size and the colour of all its pixels. */
  datatype Block = Block(X: int, Y: int, Width: int, Height: int, R: uint8, G: uint8, B: uint8, A: uint8)
  {
    function Color(): ColorRGBA {
      ColorRGBA(R, G, B, A)
    }
  }

  /** The block of colour c with origin (x, y) and the given size. */
  function BlockOf(x: int, y: int, width: int, height: int, c: ColorRGBA): (b: Block)
    ensures b.Color() == c
    ensures forall i, j :: InBlock(b, i, j) <==> y <= i < y + height && x <= j < x + width
  {
    Block(x, y, width, height, c.R, c.G, c.B, c.A)
  }

  // ---------------------------------------------------------------------
  // Packed colours
  // ---------------------------------------------------------------------

  /** `ColorRGBA.ToUint64`: R, G, B, A packed into bits 31..24, 23..16, 15..8
      and 7..0. The four shifted fields occupy disjoint bits, so the source's
      bitwise OR is the sum written here. */
  function ToUint64(c: ColorRGBA): (n: int)
    ensures 0 <= n < 0x1_0000_0000
  {
    c.R as int * 0x100_0000 + c.G as int * 0x1_0000 + c.B as int * 0x100 + c.A as int
  }

  /** The inverse of `ToUint64`: reads the four bytes back out of the word. */
  function FromUint64(n: int): ColorRGBA
    requires 0 <= n < 0x1_0000_0000
  {
    ColorRGBA((n / 0x100_0000) as uint8, (n / 0x1_0000 % 0x100) as uint8,
              (n / 0x100 % 0x100) as uint8, (n % 0x100) as uint8)
  }

  lemma DivModByte(hi: int, lo: int)
    requires 0 <= lo < 0x100
    ensures (hi * 0x100 + lo) / 0x100 == hi && (hi * 0x100 + lo) % 0x100 == lo
  {
  }

  /** Unpacking a packed colour gives the colour back. */
  lemma {:induction false} FromToUint64(c: ColorRGBA)
    ensures FromUint64(ToUint64(c)) == c
  {
    var rg := c.R as int * 0x100 + c.G as int;
    var rgb := rg * 0x100 + c.B as int;
    var n := rgb * 0x100 + c.A as int;
    assert n == ToUint64(c);
    DivModByte(rgb, c.A as int);
    DivModByte(rg, c.B as int);
    DivModByte(c.R as int, c.G as int);
    assert n / 0x100 == rgb;
    assert n / 0x1_0000 == rg by {
      assert n / 0x1_0000 == (n / 0x100) / 0x100;
    }
    assert n / 0x100_0000 == c.R as int by {
      assert n / 0x100_0000 == (n / 0x1_0000) / 0x100;
    }
  }

  /** Comparing packed words is comparing colours. */
  lemma ToUint64Injective(c1: ColorRGBA, c2: ColorRGBA)
    ensures ToUint64(c1) == ToUint64(c2) <==> c1 == c2
  {
    FromToUint64(c1);
    FromToUint64(c2);
  }

  // ---------------------------------------------------------------------
  // Building the grid
  // ---------------------------------------------------------------------

  /** A grid of `height` rows of `width` cells each. */
  ghost predicate IsGrid<T>(grid: seq<seq<T>>, width: int, height: int) {
    |grid| == height && forall i :: 0 <= i < |grid| ==> |grid[i]| == width
  }

  /** What `color.Color.RGBA()` returns for one pixel: four channels of 16
      significant bits each. */
  datatype Sample16 = Sample16(r: uint32, g: uint32, b: uint32, a: uint32)

  /** `uint8(v >> 8)`: the shift, then the truncating conversion to a byte. */
  function Quantize(v: uint32): (q: uint8)
    ensures v < 0x1_0000 ==> q as int * 0x100 <= v as int < q as int * 0x100 + 0x100
  {
    (v as int / 0x100 % 0x100) as uint8
  }

  /** The 8-bit colour of a sample: each channel's high byte. */
  function QuantizeSample(s: Sample16): (c: ColorRGBA)
    ensures s.r < 0x1_0000 ==> c.R as int == s.r as int / 0x100
    ensures s.g < 0x1_0000 ==> c.G as int == s.g as int / 0x100
    ensures s.b < 0x1_0000 ==> c.B as int == s.b as int / 0x100
    ensures s.a < 0x1_0000 ==> c.A as int == s.a as int / 0x100
  {
    ColorRGBA(Quantize(s.r), Quantize(s.g), Quantize(s.b), Quantize(s.a))
  }

  /** `createColorGrid`: `height` rows of `width` quantized samples, where
      `pixelAt(x, y)` stands for the decoded image's `img.At(x, y).RGBA()`. */
  method CreateColorGrid(pixelAt: (int, int) -> Sample16, width: int, height: int)
    returns (grid: seq<seq<ColorRGBA>>)
    requires 0 <= width && 0 <= height
    ensures IsGrid(grid, width, height)
    ensures forall y, x :: 0 <= y < height && 0 <= x < width ==> grid[y][x] == QuantizeSample(pixelAt(x, y))
  {
    grid := [];
    for y := 0 to height
      invariant IsGrid(grid, width, y)
      invariant forall i, j :: 0 <= i < y && 0 <= j < width ==> grid[i][j] == QuantizeSample(pixelAt(j, i))
    {
      var row := new ColorRGBA[width](j => ColorRGBA(0, 0, 0, 0));
      for x := 0 to width
        invariant forall j :: 0 <= j < x ==> row[j] == QuantizeSample(pixelAt(j, y))
      {
        row[x] := QuantizeSample(pixelAt(x, y));
      }
      grid := grid + [row[..]];
    }
  }

  // ---------------------------------------------------------------------
  // Specification of the decomposition
  // ---------------------------------------------------------------------

  /** Pixel (row i, column j) lies inside block b. */
  ghost predicate InBlock(b: Block, i: int, j: int) {
    b.Y <= i < b.Y + b.Height && b.X <= j < b.X + b.Width
  }

  /** Pixel (row i, column j) lies inside at least one of the blocks. */
  ghost predicate Covered(blocks: seq<Block>, i: int, j: int) {
    exists k :: 0 <= k < |blocks| && InBlock(blocks[k], i, j)
  }

  /** A block as the engine must emit it: non-empty, inside the grid, not
      transparent, and every pixel it covers has exactly its colour. */
  ghost predicate WellFormed(grid: seq<seq<ColorRGBA>>, width: int, b: Block)
    requires IsGrid(grid, width, |grid|)
  {
    && 1 <= b.Width && 1 <= b.Height
    && 0 <= b.X && b.X + b.Width <= width
    && 0 <= b.Y && b.Y + b.Height <= |grid|
    && b.A != 0
    && forall i, j :: b.Y <= i < b.Y + b.Height && b.X <= j < b.X + b.Width ==> grid[i][j] == b.Color()
  }

  /** (i, j) comes strictly before (y, x) in row-major scan order. */
  ghost predicate Before(i: int, j: int, y: int, x: int) {
    i < y || (i == y && j < x)
  }

  /** Block origins strictly increase in row-major order. */
  ghost predicate RowMajorOrdered(blocks: seq<Block>) {
    forall k, m :: 0 <= k < m < |blocks| ==> Before(blocks[k].Y, blocks[k].X, blocks[m].Y, blocks[m].X)
  }

  /** Every pixel of the grid has colour c. */
  ghost predicate Uniform(grid: seq<seq<ColorRGBA>>, c: ColorRGBA) {
    forall i, j :: 0 <= i < |grid| && 0 <= j < |grid[i]| ==> grid[i][j] == c
  }

  /** No pixel is fully transparent. */
  ghost predicate AllVisible(grid: seq<seq<ColorRGBA>>) {
    forall i, j :: 0 <= i < |grid| && 0 <= j < |grid[i]| ==> grid[i][j].A != 0
  }

  /** No visible pixel has the colour of its right or lower neighbour (a
      checkerboard is the typical case). */
  ghost predicate NoEqualNeighbours(grid: seq<seq<ColorRGBA>>, width: int)
    requires IsGrid(grid, width, |grid|)
  {
    forall i, j :: 0 <= i < |grid| && 0 <= j < width ==> Isolated(grid, width, i, j)
  }

  /** Pixel (i, j) is transparent or differs from its right and lower neighbours. */
  ghost predicate Isolated(grid: seq<seq<ColorRGBA>>, width: int, i: int, j: int)
    requires IsGrid(grid, width, |grid|) && 0 <= i < |grid| && 0 <= j < width
  {
    grid[i][j].A != 0 ==>
      (j + 1 < width ==> grid[i][j + 1] != grid[i][j]) &&
      (i + 1 < |grid| ==> grid[i + 1][j] != grid[i][j])
  }

  /** Number of fully transparent pixels among the first n of a row. */
  ghost function RowTransparent(row: seq<ColorRGBA>, n: int): nat
    requires 0 <= n <= |row|
  {
    if n == 0 then 0
    else RowTransparent(row, n - 1) + (if row[n - 1].A == 0 then 1 else 0)
  }

  /** Number of fully transparent pixels in the first m rows. */
  ghost function RowsTransparent(grid: seq<seq<ColorRGBA>>, m: int): nat
    requires 0 <= m <= |grid|
  {
    if m == 0 then 0
    else RowsTransparent(grid, m - 1) + RowTransparent(grid[m - 1], |grid[m - 1]|)
  }

  /** Number of fully transparent pixels in the grid. */
  ghost function TransparentCount(grid: seq<seq<ColorRGBA>>): nat {
    RowsTransparent(grid, |grid|)
  }

  /** A run of visible pixels adds nothing to the transparent count. */
  lemma {:induction false} RowTransparentSkip(row: seq<ColorRGBA>, lo: int, hi: int)
    requires 0 <= lo <= hi <= |row|
    requires forall j :: lo <= j < hi ==> row[j].A != 0
    ensures RowTransparent(row, hi) == RowTransparent(row, lo)
    decreases hi
  {
    if hi > lo {
      RowTransparentSkip(row, lo, hi - 1);
    }
  }

  lemma {:induction false} RowTransparentZero(row: seq<ColorRGBA>, n: int)
    requires 0 <= n <= |row|
    ensures RowTransparent(row, n) == 0 <==> forall j :: 0 <= j < n ==> row[j].A != 0
  {
    if n > 0 {
      RowTransparentZero(row, n - 1);
    }
  }

  /** The transparent count is zero exactly when no pixel is transparent. */
  lemma {:induction false} TransparentCountZero(grid: seq<seq<ColorRGBA>>, m: int)
    requires 0 <= m <= |grid|
    ensures RowsTransparent(grid, m) == 0 <==>
      forall i, j :: 0 <= i < m && 0 <= j < |grid[i]| ==> grid[i][j].A != 0
  {
    if m > 0 {
      TransparentCountZero(grid, m - 1);
      RowTransparentZero(grid[m - 1], |grid[m - 1]|);
    }
  }


  // ---------------------------------------------------------------------
  // The decomposition steps
  // ---------------------------------------------------------------------

  /** The run of `color` in `row` that starts at column x and is already
      `width` columns long, extended while the next column holds `color`,
      never past column maxX. */
  ghost function RunWidth<T>(row: seq<T>, x: int, color: T, maxX: int, width: int): (w: int)
    requires 0 <= x && 1 <= width && x + width <= maxX <= |row|
    ensures width <= w && x + w <= maxX
    decreases maxX - x - width
  {
    if x + width < maxX && row[x + width] == color then RunWidth(row, x, color, maxX, width + 1)
    else width
  }

  /** The run `RunWidth` finds holds `color` throughout (past the seed) and
      cannot be extended. */
  lemma {:induction false} RunWidthSpec<T>(row: seq<T>, x: int, color: T, maxX: int, width: int)
    requires 0 <= x && 1 <= width && x + width <= maxX <= |row|
    requires forall j :: x < j < x + width ==> row[j] == color
    ensures var w := RunWidth(row, x, color, maxX, width);
      && (forall j :: x < j < x + w ==> row[j] == color)
      && (x + w == maxX || row[x + w] != color)
    decreases maxX - x - width
  {
    if x + width < maxX && row[x + width] == color {
      RunWidthSpec(row, x, color, maxX, width + 1);
    }
  }

  /** `findMaxWidthRGBA` (and its packed-colour twin `findMaxWidth`): the
      length of the run of `color` in row y that starts at column x, stopping
      at column maxX. The seed cell itself is not compared. */
  method FindMaxWidth<T(==)>(grid: seq<seq<T>>, x: int, y: int, color: T, maxX: int) returns (width: int)
    requires 0 <= y < |grid|
    requires 0 <= x < maxX <= |grid[y]|
    ensures width == RunWidth(grid[y], x, color, maxX, 1)
    ensures 1 <= width && x + width <= maxX
    ensures forall j :: x < j < x + width ==> grid[y][j] == color
    ensures x + width == maxX || grid[y][x + width] != color
  {
    width := 1;
    while x + width < maxX && grid[y][x + width] == color
      invariant 1 <= width && x + width <= maxX
      invariant forall j :: x < j < x + width ==> grid[y][j] == color
      invariant RunWidth(grid[y], x, color, maxX, width) == RunWidth(grid[y], x, color, maxX, 1)
    {
      width := width + 1;
    }
  }

  /** Columns x0 .. x1-1 of row `row` all hold `color`. */
  ghost predicate RowIs<T>(grid: seq<seq<T>>, row: int, x0: int, x1: int, color: T)
    requires 0 <= row < |grid| && 0 <= x0 && x1 <= |grid[row]|
  {
    forall j :: x0 <= j < x1 ==> grid[row][j] == color
  }

  /** How many rows, starting with row y and already `height` rows, the span
      of columns x .. x+width-1 stays `color`, never past row maxY. */
  ghost function RunHeight<T>(grid: seq<seq<T>>, x: int, y: int, color: T, width: int, maxY: int,
                                  height: int): (h: int)
    requires 0 <= y && 1 <= height && y + height <= maxY <= |grid|
    requires 0 <= x && 0 <= width
    requires forall i :: y < i < maxY ==> x + width <= |grid[i]|
    ensures height <= h && y + h <= maxY
    decreases maxY - y - height
  {
    if y + height < maxY && RowIs(grid, y + height, x, x + width, color) then
      RunHeight(grid, x, y, color, width, maxY, height + 1)
    else height
  }

  /** The rows `RunHeight` finds below row y hold `color` over the span, and
      the next row does not. */
  lemma {:induction false} RunHeightSpec<T>(grid: seq<seq<T>>, x: int, y: int, color: T, width: int, maxY: int,
                                            height: int)
    requires 0 <= y && 1 <= height && y + height <= maxY <= |grid|
    requires 0 <= x && 0 <= width
    requires forall i :: y < i < maxY ==> x + width <= |grid[i]|
    requires forall i, j :: y < i < y + height && x <= j < x + width ==> grid[i][j] == color
    ensures var h := RunHeight(grid, x, y, color, width, maxY, height);
      && (forall i, j :: y < i < y + h && x <= j < x + width ==> grid[i][j] == color)
      && (y + h == maxY || !RowIs(grid, y + h, x, x + width, color))
    decreases maxY - y - height
  {
    if y + height < maxY && RowIs(grid, y + height, x, x + width, color) {
      RunHeightSpec(grid, x, y, color, width, maxY, height + 1);
    }
  }

  /** `findMaxHeightRGBA` (and its packed-colour twin `findMaxHeight`): how
      many rows, starting with row y, the span of columns x .. x+width-1 stays
      `color`, stopping at row maxY. Row y itself is not compared. */
  method FindMaxHeight<T(==)>(grid: seq<seq<T>>, x: int, y: int, color: T, width: int, maxY: int)
    returns (height: int)
    requires 0 <= y < maxY <= |grid|
    requires 0 <= x && 0 <= width
    requires forall i :: y < i < maxY ==> x + width <= |grid[i]|
    ensures height == RunHeight(grid, x, y, color, width, maxY, 1)
    ensures 1 <= height && y + height <= maxY
    ensures forall i, j :: y < i < y + height && x <= j < x + width ==> grid[i][j] == color
    ensures y + height == maxY || !RowIs(grid, y + height, x, x + width, color)
  {
    height := 1;
    while y + height < maxY
      invariant 1 <= height && y + height <= maxY
      invariant forall i, j :: y < i < y + height && x <= j < x + width ==> grid[i][j] == color
      invariant RunHeight(grid, x, y, color, width, maxY, height) == RunHeight(grid, x, y, color, width, maxY, 1)
    {
      var row, i := y + height, 0;
      while i < width
        invariant 0 <= i <= width
        invariant RowIs(grid, row, x, x + i, color)
      {
        if grid[row][x + i] != color {
          assert !RowIs(grid, row, x, x + width, color);
          return;
        }
        i := i + 1;
      }
      height := height + 1;
    }
  }

  /** Pixel (i, j) exists, is unused in mask m and has colour c. */
  ghost predicate Free(grid: seq<seq<ColorRGBA>>, m: iset<(int, int)>, c: ColorRGBA, i: int, j: int) {
    0 <= i < |grid| && 0 <= j < |grid[i]| && (i, j) !in m && grid[i][j] == c
  }

  /** Rows y0 .. y1-1 of column `col` are all unused and of colour c. */
  ghost predicate ColumnFree(grid: seq<seq<ColorRGBA>>, width: int, m: iset<(int, int)>, c: ColorRGBA,
                             col: int, y0: int, y1: int)
    requires IsGrid(grid, width, |grid|)
    requires 0 <= col < width && 0 <= y0 && y1 <= |grid|
  {
    forall i :: y0 <= i < y1 ==> Free(grid, m, c, i, col)
  }

  /** Columns x0 .. x1-1 of row `row` are all unused and of colour c. */
  ghost predicate RowFree(grid: seq<seq<ColorRGBA>>, width: int, m: iset<(int, int)>, c: ColorRGBA,
                          row: int, x0: int, x1: int)
    requires IsGrid(grid, width, |grid|)
    requires 0 <= row < |grid| && 0 <= x0 && x1 <= width
  {
    forall j :: x0 <= j < x1 ==> Free(grid, m, c, row, j)
  }

  /** Every pixel of the rectangle of width w and height h at (x, y) that is
      not in its leading w0 x h0 part is unused and has colour c. */
  ghost predicate AddedCellsFree(grid: seq<seq<ColorRGBA>>, width: int, m: iset<(int, int)>, c: ColorRGBA,
                                 x: int, y: int, w0: int, h0: int, w: int, h: int)
    requires IsGrid(grid, width, |grid|)
    requires 0 <= x && x + w <= width && 0 <= y && y + h <= |grid|
  {
    forall i, j :: y <= i < y + h && x <= j < x + w && !(i < y + h0 && j < x + w0) ==>
      Free(grid, m, c, i, j)
  }

  lemma GrowRight(grid: seq<seq<ColorRGBA>>, width: int, m: iset<(int, int)>, c: ColorRGBA,
                  x: int, y: int, w0: int, h0: int, w: int, h: int)
    requires IsGrid(grid, width, |grid|)
    requires 0 <= x && 0 <= w0 <= w && x + w < width && 0 <= y && 0 <= h0 <= h && y + h <= |grid|
    requires AddedCellsFree(grid, width, m, c, x, y, w0, h0, w, h)
    requires ColumnFree(grid, width, m, c, x + w, y, y + h)
    ensures AddedCellsFree(grid, width, m, c, x, y, w0, h0, w + 1, h)
  {
    forall i, j | y <= i < y + h && x <= j < x + w + 1 && !(i < y + h0 && j < x + w0)
      ensures Free(grid, m, c, i, j)
    {
      if j == x + w {
        assert Free(grid, m, c, i, j);
      }
    }
  }

  lemma GrowDown(grid: seq<seq<ColorRGBA>>, width: int, m: iset<(int, int)>, c: ColorRGBA,
                 x: int, y: int, w0: int, h0: int, w: int, h: int)
    requires IsGrid(grid, width, |grid|)
    requires 0 <= x && 0 <= w0 <= w && x + w <= width && 0 <= y && 0 <= h0 <= h && y + h < |grid|
    requires AddedCellsFree(grid, width, m, c, x, y, w0, h0, w, h)
    requires RowFree(grid, width, m, c, y + h, x, x + w)
    ensures AddedCellsFree(grid, width, m, c, x, y, w0, h0, w, h + 1)
  {
    forall i, j | y <= i < y + h + 1 && x <= j < x + w && !(i < y + h0 && j < x + w0)
      ensures Free(grid, m, c, i, j)
    {
      if i == y + h {
        assert Free(grid, m, c, i, j);
      }
    }
  }

  /** The growth `expandBlockRGBA` performs: one column to the right, then one
      row down (over the possibly widened span), each only when all its pixels
      are unused and of colour c; repeated until a pass adds nothing. */
  ghost function Expand(grid: seq<seq<ColorRGBA>>, width: int, m: iset<(int, int)>, c: ColorRGBA,
                        x: int, y: int, w: int, h: int, maxX: int, maxY: int): (r: (int, int))
    requires IsGrid(grid, width, |grid|)
    requires 0 <= x && 0 <= w && x + w <= maxX <= width
    requires 0 <= y && 0 <= h && y + h <= maxY <= |grid|
    ensures w <= r.0 && x + r.0 <= maxX && h <= r.1 && y + r.1 <= maxY
    decreases (maxX - w) + (maxY - h)
  {
    var w' := if x + w < maxX && ColumnFree(grid, width, m, c, x + w, y, y + h) then w + 1 else w;
    var h' := if y + h < maxY && RowFree(grid, width, m, c, y + h, x, x + w') then h + 1 else h;
    if w' == w && h' == h then (w, h) else Expand(grid, width, m, c, x, y, w', h', maxX, maxY)
  }

  /** Every pixel the expansion adds is unused and of colour c. */
  lemma {:induction false} ExpandFree(grid: seq<seq<ColorRGBA>>, width: int, m: iset<(int, int)>, c: ColorRGBA,
                                      x: int, y: int, w0: int, h0: int, w: int, h: int, maxX: int, maxY: int)
    requires IsGrid(grid, width, |grid|)
    requires 0 <= x && 0 <= w0 <= w && x + w <= maxX <= width
    requires 0 <= y && 0 <= h0 <= h && y + h <= maxY <= |grid|
    requires AddedCellsFree(grid, width, m, c, x, y, w0, h0, w, h)
    ensures var r := Expand(grid, width, m, c, x, y, w, h, maxX, maxY);
      AddedCellsFree(grid, width, m, c, x, y, w0, h0, r.0, r.1)
    decreases (maxX - w) + (maxY - h)
  {
    var w' := if x + w < maxX && ColumnFree(grid, width, m, c, x + w, y, y + h) then w + 1 else w;
    if w' != w {
      GrowRight(grid, width, m, c, x, y, w0, h0, w, h);
    }
    var h' := if y + h < maxY && RowFree(grid, width, m, c, y + h, x, x + w') then h + 1 else h;
    if h' != h {
      GrowDown(grid, width, m, c, x, y, w0, h0, w', h);
    }
    if w' != w || h' != h {
      ExpandFree(grid, width, m, c, x, y, w0, h0, w', h', maxX, maxY);
    }
  }

  /** The expansion stops only where the block can be grown neither right
      nor down. */
  lemma {:induction false} ExpandMaximal(grid: seq<seq<ColorRGBA>>, width: int, m: iset<(int, int)>, c: ColorRGBA,
                                         x: int, y: int, w: int, h: int, maxX: int, maxY: int)
    requires IsGrid(grid, width, |grid|)
    requires 0 <= x && 0 <= w && x + w <= maxX <= width
    requires 0 <= y && 0 <= h && y + h <= maxY <= |grid|
    ensures var r := Expand(grid, width, m, c, x, y, w, h, maxX, maxY);
      && (x + r.0 == maxX || !ColumnFree(grid, width, m, c, x + r.0, y, y + r.1))
      && (y + r.1 == maxY || !RowFree(grid, width, m, c, y + r.1, x, x + r.0))
    decreases (maxX - w) + (maxY - h)
  {
    var w' := if x + w < maxX && ColumnFree(grid, width, m, c, x + w, y, y + h) then w + 1 else w;
    var h' := if y + h < maxY && RowFree(grid, width, m, c, y + h, x, x + w') then h + 1 else h;
    if w' != w || h' != h {
      ExpandMaximal(grid, width, m, c, x, y, w', h', maxX, maxY);
    }
  }

  /** One pass of `Expand`, given whether it grows right and whether it
      then grows down. */
  lemma ExpandStep(grid: seq<seq<ColorRGBA>>, width: int, m: iset<(int, int)>, c: ColorRGBA,
                   x: int, y: int, w: int, h: int, maxX: int, maxY: int, right: bool, down: bool)
    requires IsGrid(grid, width, |grid|)
    requires 0 <= x && 0 <= w && x + w <= maxX <= width
    requires 0 <= y && 0 <= h && y + h <= maxY <= |grid|
    requires right == (x + w < maxX && ColumnFree(grid, width, m, c, x + w, y, y + h))
    requires down == (y + h < maxY && RowFree(grid, width, m, c, y + h, x, x + if right then w + 1 else w))
    ensures var w', h' := if right then w + 1 else w, if down then h + 1 else h;
      Expand(grid, width, m, c, x, y, w, h, maxX, maxY) ==
        if right || down then Expand(grid, width, m, c, x, y, w', h', maxX, maxY) else (w, h)
  {
  }

  /** The inner loop of `expandBlockRGBA` over column `col`, rows y0 .. y1-1:
      true exactly when none of those pixels is used and all have colour c. */
  method ColumnCanGrow(grid: seq<seq<ColorRGBA>>, used: array2<bool>, ghost m: iset<(int, int)>,
                       c: ColorRGBA, col: int, y0: int, y1: int)
    returns (canExpand: bool)
    requires IsGrid(grid, used.Length1, |grid|) && used.Length0 == |grid|
    requires forall i, j :: 0 <= i < used.Length0 && 0 <= j < used.Length1 ==> used[i, j] == ((i, j) in m)
    requires 0 <= col < used.Length1 && 0 <= y0 <= y1 <= |grid|
    ensures canExpand == ColumnFree(grid, used.Length1, m, c, col, y0, y1)
  {
    var i := y0;
    while i < y1
      invariant y0 <= i <= y1
      invariant ColumnFree(grid, used.Length1, m, c, col, y0, i)
    {
      if used[i, col] || grid[i][col] != c {
        assert !Free(grid, m, c, i, col);
        return false;
      }
      i := i + 1;
    }
    return true;
  }

  /** The inner loop of `expandBlockRGBA` over row `row`, columns x0 .. x1-1:
      true exactly when none of those pixels is used and all have colour c. */
  method RowCanGrow(grid: seq<seq<ColorRGBA>>, used: array2<bool>, ghost m: iset<(int, int)>,
                    c: ColorRGBA, row: int, x0: int, x1: int)
    returns (canExpand: bool)
    requires IsGrid(grid, used.Length1, |grid|) && used.Length0 == |grid|
    requires forall i, j :: 0 <= i < used.Length0 && 0 <= j < used.Length1 ==> used[i, j] == ((i, j) in m)
    requires 0 <= row < |grid| && 0 <= x0 <= x1 <= used.Length1
    ensures canExpand == RowFree(grid, used.Length1, m, c, row, x0, x1)
  {
    var j := x0;
    while j < x1
      invariant x0 <= j <= x1
      invariant RowFree(grid, used.Length1, m, c, row, x0, j)
    {
      if used[row, j] || grid[row][j] != c {
        assert !Free(grid, m, c, row, j);
        return false;
      }
      j := j + 1;
    }
    return true;
  }

  /** One pass of the loop of `expandBlockRGBA` on the w x h block at (x, y):
      one column to the right, then one row down, each when all its pixels
      are unused and of colour c. `Expand` from the old size equals `Expand`
      from the new one, or the old size itself when the pass added nothing. */
  method GrowOnce(grid: seq<seq<ColorRGBA>>, used: array2<bool>, ghost m: iset<(int, int)>,
                  x: int, y: int, w: int, h: int, color: ColorRGBA, maxX: int, maxY: int)
    returns (expandedWidth: int, expandedHeight: int, expanded: bool)
    requires IsGrid(grid, used.Length1, |grid|) && used.Length0 == |grid|
    requires forall i, j :: 0 <= i < used.Length0 && 0 <= j < used.Length1 ==> used[i, j] == ((i, j) in m)
    requires 0 <= x && 0 <= w && x + w <= maxX <= used.Length1
    requires 0 <= y && 0 <= h && y + h <= maxY <= used.Length0
    ensures w <= expandedWidth && x + expandedWidth <= maxX && h <= expandedHeight && y + expandedHeight <= maxY
    ensures expanded == (expandedWidth != w || expandedHeight != h)
    ensures Expand(grid, used.Length1, m, color, x, y, w, h, maxX, maxY) ==
      if expanded then Expand(grid, used.Length1, m, color, x, y, expandedWidth, expandedHeight, maxX, maxY)
      else (w, h)
  {
    expandedWidth, expandedHeight, expanded := w, h, false;
    ghost var right, down := false, false;
    if x + expandedWidth < maxX {
      var canExpand := ColumnCanGrow(grid, used, m, color, x + expandedWidth, y, y + expandedHeight);
      if canExpand {
        expandedWidth := expandedWidth + 1;
        expanded, right := true, true;
      }
    }
    if y + expandedHeight < maxY {
      var canExpand := RowCanGrow(grid, used, m, color, y + expandedHeight, x, x + expandedWidth);
      if canExpand {
        expandedHeight := expandedHeight + 1;
        expanded, down := true, true;
      }
    }
    ExpandStep(grid, used.Length1, m, color, x, y, w, h, maxX, maxY, right, down);
  }

  /** `expandBlockRGBA`: grows the block at (x, y) as `Expand` describes,
      reading the `used` matrix, whose contents the ghost mask m mirrors. */
  method ExpandBlock(grid: seq<seq<ColorRGBA>>, used: array2<bool>, ghost m: iset<(int, int)>,
                     x: int, y: int, width: int, height: int, color: ColorRGBA, maxX: int, maxY: int)
    returns (expandedWidth: int, expandedHeight: int)
    requires IsGrid(grid, used.Length1, |grid|) && used.Length0 == |grid|
    requires forall i, j :: 0 <= i < used.Length0 && 0 <= j < used.Length1 ==> used[i, j] == ((i, j) in m)
    requires 0 <= x && 0 <= width && x + width <= maxX <= used.Length1
    requires 0 <= y && 0 <= height && y + height <= maxY <= used.Length0
    ensures (expandedWidth, expandedHeight) == Expand(grid, used.Length1, m, color, x, y, width, height, maxX, maxY)
  {
    expandedWidth, expandedHeight := width, height;
    while true
      invariant width <= expandedWidth && x + expandedWidth <= maxX
      invariant height <= expandedHeight && y + expandedHeight <= maxY
      invariant Expand(grid, used.Length1, m, color, x, y, expandedWidth, expandedHeight, maxX, maxY) ==
        Expand(grid, used.Length1, m, color, x, y, width, height, maxX, maxY)
      decreases (maxX - expandedWidth) + (maxY - expandedHeight)
    {
      var expanded;
      expandedWidth, expandedHeight, expanded :=
        GrowOnce(grid, used, m, x, y, expandedWidth, expandedHeight, color, maxX, maxY);
      if !expanded {
        break;
      }
    }
  }

  /** `markBlockUsed`: sets the cells of the rectangle, clipped to the mask,
      and nothing else. */
  method MarkBlockUsed(used: array2<bool>, x: int, y: int, width: int, height: int)
    requires 0 <= x && 0 <= y
    modifies used
    ensures forall i, j :: 0 <= i < used.Length0 && 0 <= j < used.Length1 ==>
      used[i, j] == (old(used[i, j]) || (y <= i < y + height && x <= j < x + width))
  {
    var i := y;
    while i < y + height && i < used.Length0
      invariant y <= i && (i <= y + height || i == y)
      invariant forall a, b :: 0 <= a < used.Length0 && 0 <= b < used.Length1 ==>
        used[a, b] == (old(used[a, b]) || (y <= a < i && x <= b < x + width))
    {
      var j := x;
      while j < x + width && j < used.Length1
        invariant x <= j && (j <= x + width || j == x)
        invariant forall a, b :: 0 <= a < used.Length0 && 0 <= b < used.Length1 ==>
          used[a, b] == (old(used[a, b]) || (y <= a < i && x <= b < x + width) || (a == i && x <= b < j))
      {
        used[i, j] := true;
        j := j + 1;
      }
      i := i + 1;
    }
  }

  /** The mask m with the w x h rectangle at (x, y) added: what
      `markBlockUsed` does to the `used` matrix. */
  ghost function MarkRect(m: iset<(int, int)>, x: int, y: int, w: int, h: int): (r: iset<(int, int)>)
    ensures forall i, j :: (i, j) in r <==> (i, j) in m || (y <= i < y + h && x <= j < x + w)
  {
    m + iset p: (int, int) | InRect(p, x, y, w, h)
  }

  /** Pixel p = (row, column) lies in the w x h rectangle at (x, y). */
  ghost predicate InRect(p: (int, int), x: int, y: int, w: int, h: int) {
    y <= p.0 < y + h && x <= p.1 < x + w
  }

  // ---------------------------------------------------------------------
  // The scan
  // ---------------------------------------------------------------------

  /** The size of the block grown from the unused visible seed (x, y) under
      mask m: the run `findMaxWidthRGBA` finds, the extent `findMaxHeightRGBA`
      finds below it, both grown by `Expand`. */
  ghost function Seed(grid: seq<seq<ColorRGBA>>, width: int, m: iset<(int, int)>, x: int, y: int): (r: (int, int))
    requires IsGrid(grid, width, |grid|)
    requires 0 <= y < |grid| && 0 <= x < width
    ensures 1 <= r.0 && x + r.0 <= width && 1 <= r.1 && y + r.1 <= |grid|
  {
    var c := grid[y][x];
    var w0 := RunWidth(grid[y], x, c, width, 1);
    var h0 := RunHeight(grid, x, y, c, w0, |grid|, 1);
    Expand(grid, width, m, c, x, y, w0, h0, width, |grid|)
  }

  /** The row-major scan `findOptimalBlocks` performs, from row y, column x,
      with mask m, the blocks emitted so far and the number of transparent
      pixels skipped so far; the result is the final blocks and count. */
  ghost function Scan(grid: seq<seq<ColorRGBA>>, width: int, m: iset<(int, int)>, blocks: seq<Block>,
                      skipped: nat, y: int, x: int): (r: (seq<Block>, nat))
    requires IsGrid(grid, width, |grid|)
    requires 0 <= y <= |grid| && 0 <= x <= width
    ensures |blocks| <= |r.0| && r.0[..|blocks|] == blocks && skipped <= r.1
    decreases |grid| - y, width - x, 1
  {
    if y == |grid| then (blocks, skipped)
    else if x == width then Scan(grid, width, m, blocks, skipped, y + 1, 0)
    else if (y, x) in m then Scan(grid, width, m, blocks, skipped, y, x + 1)
    else if grid[y][x].A == 0 then
      Scan(grid, width, MarkRect(m, x, y, 1, 1), blocks, skipped + 1, y, x + 1)
    else
      ScanFromSeed(grid, width, m, blocks, skipped, y, x)
  }

  /** The scan at the seed (x, y): the block `Seed` describes is emitted and
      marked, and the scan goes on past it. */
  ghost function ScanFromSeed(grid: seq<seq<ColorRGBA>>, width: int, m: iset<(int, int)>, blocks: seq<Block>,
                              skipped: nat, y: int, x: int): (r: (seq<Block>, nat))
    requires IsGrid(grid, width, |grid|)
    requires 0 <= y < |grid| && 0 <= x < width
    ensures |blocks| < |r.0| && r.0[..|blocks|] == blocks && skipped <= r.1
    decreases |grid| - y, width - x, 0
  {
    var r := Seed(grid, width, m, x, y);
    Scan(grid, width, MarkRect(m, x, y, r.0, r.1), blocks + [BlockOf(x, y, r.0, r.1, grid[y][x])],
         skipped, y, x + r.0)
  }

  /** The blocks and the transparent-pixel count of a whole grid. */
  ghost function Decompose(grid: seq<seq<ColorRGBA>>, width: nat): (seq<Block>, nat)
    requires IsGrid(grid, width, |grid|)
  {
    Scan(grid, width, iset{}, [], 0, 0, 0)
  }

  /** The four ways `Scan` moves on, one lemma each. */
  lemma ScanNextRow(grid: seq<seq<ColorRGBA>>, width: int, m: iset<(int, int)>, blocks: seq<Block>,
                    skipped: nat, y: int)
    requires IsGrid(grid, width, |grid|) && 0 <= width && 0 <= y < |grid|
    ensures Scan(grid, width, m, blocks, skipped, y, width) == Scan(grid, width, m, blocks, skipped, y + 1, 0)
  {
  }

  lemma ScanUsedStep(grid: seq<seq<ColorRGBA>>, width: int, m: iset<(int, int)>, blocks: seq<Block>,
                     skipped: nat, y: int, x: int)
    requires IsGrid(grid, width, |grid|)
    requires 0 <= y < |grid| && 0 <= x < width && (y, x) in m
    ensures Scan(grid, width, m, blocks, skipped, y, x) == Scan(grid, width, m, blocks, skipped, y, x + 1)
  {
  }

  lemma ScanTransparentStep(grid: seq<seq<ColorRGBA>>, width: int, m: iset<(int, int)>, blocks: seq<Block>,
                            skipped: nat, y: int, x: int)
    requires IsGrid(grid, width, |grid|)
    requires 0 <= y < |grid| && 0 <= x < width && (y, x) !in m && grid[y][x].A == 0
    ensures Scan(grid, width, m, blocks, skipped, y, x) ==
      Scan(grid, width, MarkRect(m, x, y, 1, 1), blocks, skipped + 1, y, x + 1)
  {
  }

  lemma ScanSeedStep(grid: seq<seq<ColorRGBA>>, width: int, m: iset<(int, int)>, blocks: seq<Block>,
                     skipped: nat, y: int, x: int, block: Block)
    requires IsGrid(grid, width, |grid|)
    requires 0 <= y < |grid| && 0 <= x < width && (y, x) !in m && grid[y][x].A != 0
    requires block == BlockOf(x, y, Seed(grid, width, m, x, y).0, Seed(grid, width, m, x, y).1, grid[y][x])
    ensures x + block.Width <= width
    ensures Scan(grid, width, m, blocks, skipped, y, x) ==
      Scan(grid, width, MarkRect(m, x, y, block.Width, block.Height), blocks + [block], skipped, y, x + block.Width)
  {
  }

  /** The body of `findOptimalBlocks` for an unused visible seed (x, y): the
      run, the extent below it and the expansion, then the block is marked
      used. The returned block is the one `Seed` describes. */
  method EmitBlock(grid: seq<seq<ColorRGBA>>, used: array2<bool>, ghost m: iset<(int, int)>,
                   x: int, y: int, width: nat, height: nat)
    returns (block: Block)
    requires IsGrid(grid, width, height) && used.Length0 == height && used.Length1 == width
    requires 0 <= y < height && 0 <= x < width
    requires forall i, j :: 0 <= i < height && 0 <= j < width ==> used[i, j] == ((i, j) in m)
    modifies used
    ensures block == BlockOf(x, y, Seed(grid, width, m, x, y).0, Seed(grid, width, m, x, y).1, grid[y][x])
    ensures forall i, j :: 0 <= i < height && 0 <= j < width ==>
      used[i, j] == ((i, j) in MarkRect(m, x, y, block.Width, block.Height))
  {
    var color := grid[y][x];
    var maxWidth := FindMaxWidth(grid, x, y, color, width);
    var maxHeight := FindMaxHeight(grid, x, y, color, maxWidth, height);
    var expandedWidth, expandedHeight :=
      ExpandBlock(grid, used, m, x, y, maxWidth, maxHeight, color, width, height);
    block := BlockOf(x, y, expandedWidth, expandedHeight, color);
    MarkBlockUsed(used, x, y, expandedWidth, expandedHeight);
  }

  /** The body of the column loop of `findOptimalBlocks` at (x, y): a used
      pixel is passed over, a transparent one is marked used and counted, a
      visible one seeds a block. The scan from the returned state at column
      next goes on as the scan from the given state at column x. */
  method VisitPixel(grid: seq<seq<ColorRGBA>>, used: array2<bool>, ghost m0: iset<(int, int)>,
                    blocks0: seq<Block>, skipped0: nat, y: int, x: int, width: nat, height: nat)
    returns (blocks: seq<Block>, skipped: nat, ghost mask: iset<(int, int)>, next: int)
    requires IsGrid(grid, width, height) && used.Length0 == height && used.Length1 == width
    requires 0 <= y < height && 0 <= x < width
    requires forall i, j :: 0 <= i < height && 0 <= j < width ==> used[i, j] == ((i, j) in m0)
    modifies used
    ensures x < next <= width
    ensures forall i, j :: 0 <= i < height && 0 <= j < width ==> used[i, j] == ((i, j) in mask)
    ensures Scan(grid, width, mask, blocks, skipped, y, next) == Scan(grid, width, m0, blocks0, skipped0, y, x)
  {
    blocks, skipped, mask := blocks0, skipped0, m0;
    if used[y, x] {
      ScanUsedStep(grid, width, mask, blocks, skipped, y, x);
      next := x + 1;
    } else {
      var color := grid[y][x];
      if color.A == 0 {
        ScanTransparentStep(grid, width, mask, blocks, skipped, y, x);
        used[y, x] := true;
        mask := MarkRect(mask, x, y, 1, 1);
        skipped := skipped + 1;
        next := x + 1;
      } else {
        var block := EmitBlock(grid, used, mask, x, y, width, height);
        ScanSeedStep(grid, width, mask, blocks, skipped, y, x, block);
        blocks := blocks + [block];
        mask := MarkRect(mask, x, y, block.Width, block.Height);
        next := x + block.Width;
      }
    }
  }

  /** One row of `findOptimalBlocks`, columns 0 to width - 1: the scan with
      mask m0, blocks0 and skipped0 at the start of row y goes on as the scan
      with the returned state at the start of row y + 1. */
  method ScanRow(grid: seq<seq<ColorRGBA>>, used: array2<bool>, ghost m0: iset<(int, int)>,
                 blocks0: seq<Block>, skipped0: nat, y: int, width: nat, height: nat)
    returns (blocks: seq<Block>, skipped: nat, ghost mask: iset<(int, int)>)
    requires IsGrid(grid, width, height) && used.Length0 == height && used.Length1 == width
    requires 0 <= y < height
    requires forall i, j :: 0 <= i < height && 0 <= j < width ==> used[i, j] == ((i, j) in m0)
    modifies used
    ensures forall i, j :: 0 <= i < height && 0 <= j < width ==> used[i, j] == ((i, j) in mask)
    ensures Scan(grid, width, mask, blocks, skipped, y + 1, 0) == Scan(grid, width, m0, blocks0, skipped0, y, 0)
  {
    blocks, skipped, mask := blocks0, skipped0, m0;
    var x := 0;
    while x < width
      invariant 0 <= x <= width
      invariant forall i, j :: 0 <= i < height && 0 <= j < width ==> used[i, j] == ((i, j) in mask)
      invariant Scan(grid, width, mask, blocks, skipped, y, x) == Scan(grid, width, m0, blocks0, skipped0, y, 0)
    {
      blocks, skipped, mask, x := VisitPixel(grid, used, mask, blocks, skipped, y, x, width, height);
    }
    ScanNextRow(grid, width, mask, blocks, skipped, y);
  }

  /** `findOptimalBlocks`: the row-major scan that emits the blocks. Besides
      the blocks it returns the number of transparent pixels it skipped (the
      source's `transparentBlocks` counter, which it only prints). */
  method FindOptimalBlocks(grid: seq<seq<ColorRGBA>>, width: nat, height: nat)
    returns (blocks: seq<Block>, skipped: nat)
    requires IsGrid(grid, width, height)
    ensures (blocks, skipped) == Decompose(grid, width)
  {
    var used := new bool[height, width]((i, j) => false);
    ghost var mask: iset<(int, int)> := iset{};
    blocks, skipped := [], 0;

    var y := 0;
    while y < height
      invariant 0 <= y <= height
      invariant forall i, j :: 0 <= i < height && 0 <= j < width ==> used[i, j] == ((i, j) in mask)
      invariant Scan(grid, width, mask, blocks, skipped, y, 0) == Decompose(grid, width)
    {
      blocks, skipped, mask := ScanRow(grid, used, mask, blocks, skipped, y, width, height);
      y := y + 1;
    }
  }

  // ---------------------------------------------------------------------
  // Properties of the scan
  // ---------------------------------------------------------------------

  /** Block k is well formed, is a single pixel when the grid has no equal
      neighbours, and its origin comes after the origins of all earlier
      blocks in row-major order and lies in none of them. */
  ghost predicate EmittedOK(grid: seq<seq<ColorRGBA>>, width: int, blocks: seq<Block>, k: int)
    requires IsGrid(grid, width, |grid|) && 0 <= k < |blocks|
  {
    && WellFormed(grid, width, blocks[k])
    && (NoEqualNeighbours(grid, width) ==> blocks[k].Width == 1 && blocks[k].Height == 1)
    && forall n :: 0 <= n < k ==>
         Before(blocks[n].Y, blocks[n].X, blocks[k].Y, blocks[k].X) && !InBlock(blocks[n], blocks[k].Y, blocks[k].X)
  }

  /** Pixel (i, j) when the scan is about to visit row y, column x with mask
      m: it is used exactly when it was scanned or lies in a block, if it was
      scanned and is visible it lies in a block, and without equal neighbours
      it is unused until scanned. */
  ghost predicate PixelOK(grid: seq<seq<ColorRGBA>>, width: int, m: iset<(int, int)>, blocks: seq<Block>,
                          y: int, x: int, i: int, j: int)
    requires IsGrid(grid, width, |grid|) && 0 <= i < |grid| && 0 <= j < width
  {
    && ((i, j) in m <==> Before(i, j, y, x) || Covered(blocks, i, j))
    && (Before(i, j, y, x) && grid[i][j].A != 0 ==> Covered(blocks, i, j))
    && (NoEqualNeighbours(grid, width) && !Before(i, j, y, x) ==> (i, j) !in m)
  }

  /** The grid is non-empty and every pixel has the visible colour of the first. */
  ghost predicate UniformVisible(grid: seq<seq<ColorRGBA>>) {
    0 < |grid| && 0 < |grid[0]| && grid[0][0].A != 0 && Uniform(grid, grid[0][0])
  }

  /** Transparent pixels before row y, column x. */
  ghost function SkippedSoFar(grid: seq<seq<ColorRGBA>>, y: int, x: int): nat
    requires 0 <= y <= |grid| && (y < |grid| ==> 0 <= x <= |grid[y]|)
  {
    if y < |grid| then RowsTransparent(grid, y) + RowTransparent(grid[y], x) else RowsTransparent(grid, y)
  }

  /** Everything that holds of a state the scan reaches: the blocks so far
      are as `EmittedOK` says, the last of them starts before the scan
      position, every pixel is as `PixelOK` says, on a uniform visible grid
      the scan has either not started or emitted the one block covering the
      grid, without equal neighbours each scanned pixel gave one block or was
      skipped, and `skipped` counts the transparent pixels scanned. */
  ghost predicate Reachable(grid: seq<seq<ColorRGBA>>, width: int, m: iset<(int, int)>,
                            blocks: seq<Block>, skipped: int, y: int, x: int)
  {
    && IsGrid(grid, width, |grid|)
    && 0 <= y <= |grid| && 0 <= x <= width && (y == |grid| ==> x == 0)
    && (forall k :: 0 <= k < |blocks| ==> EmittedOK(grid, width, blocks, k))
    && (|blocks| > 0 ==> Before(blocks[|blocks| - 1].Y, blocks[|blocks| - 1].X, y, x))
    && (forall i, j :: 0 <= i < |grid| && 0 <= j < width ==> PixelOK(grid, width, m, blocks, y, x, i, j))
    && (UniformVisible(grid) ==>
          (y == 0 && x == 0 && blocks == [] && m == iset{}) ||
          (blocks == [BlockOf(0, 0, width, |grid|, grid[0][0])] && m == MarkRect(iset{}, 0, 0, width, |grid|)))
    && (NoEqualNeighbours(grid, width) ==> |blocks| + skipped == y * width + x)
    && skipped == SkippedSoFar(grid, y, x)
  }

  /** What the finished scan guarantees. */
  ghost predicate Final(grid: seq<seq<ColorRGBA>>, width: int, blocks: seq<Block>, skipped: int)
    requires IsGrid(grid, width, |grid|)
  {
    && (forall k :: 0 <= k < |blocks| ==> WellFormed(grid, width, blocks[k]))
    && (forall i, j :: 0 <= i < |grid| && 0 <= j < width ==> (Covered(blocks, i, j) <==> grid[i][j].A != 0))
    && RowMajorOrdered(blocks)
    && (forall k, n :: 0 <= n < k < |blocks| ==> !InBlock(blocks[n], blocks[k].Y, blocks[k].X))
    && skipped == TransparentCount(grid)
    && (UniformVisible(grid) ==> blocks == [BlockOf(0, 0, width, |grid|, grid[0][0])])
    && (NoEqualNeighbours(grid, width) ==>
          (forall k :: 0 <= k < |blocks| ==> blocks[k].Width == 1 && blocks[k].Height == 1) &&
          |blocks| + skipped == |grid| * width)
  }

  /** Pixel (i, j) lies in a block exactly when it is visible. */
  ghost predicate CoveredIffVisible(grid: seq<seq<ColorRGBA>>, blocks: seq<Block>, i: int, j: int)
    requires 0 <= i < |grid| && 0 <= j < |grid[i]|
  {
    Covered(blocks, i, j) <==> grid[i][j].A != 0
  }

  /** `Final` as the induction over the scan carries it: block by block as
      `EmittedOK` says, pixel by pixel as `CoveredIffVisible` says. */
  ghost predicate Done(grid: seq<seq<ColorRGBA>>, width: int, blocks: seq<Block>, skipped: int)
    requires IsGrid(grid, width, |grid|)
  {
    && (forall k :: 0 <= k < |blocks| ==> EmittedOK(grid, width, blocks, k))
    && (forall i, j :: 0 <= i < |grid| && 0 <= j < width ==> CoveredIffVisible(grid, blocks, i, j))
    && skipped == TransparentCount(grid)
    && (UniformVisible(grid) ==> blocks == [BlockOf(0, 0, width, |grid|, grid[0][0])])
    && (NoEqualNeighbours(grid, width) ==> |blocks| + skipped == |grid| * width)
  }

  /** The scan starts in a reachable state. */
  lemma Start(grid: seq<seq<ColorRGBA>>, width: nat)
    requires IsGrid(grid, width, |grid|)
    ensures Reachable(grid, width, iset{}, [], 0, 0, 0)
  {
    forall i, j | 0 <= i < |grid| && 0 <= j < width
      ensures PixelOK(grid, width, iset{}, [], 0, 0, i, j)
    {
    }
  }

  /** Reaching the end of row y is starting row y + 1. */
  lemma NextRow(grid: seq<seq<ColorRGBA>>, width: int, m: iset<(int, int)>, blocks: seq<Block>, skipped: int, y: int)
    requires 0 <= y < |grid|
    requires Reachable(grid, width, m, blocks, skipped, y, width)
    ensures Reachable(grid, width, m, blocks, skipped, y + 1, 0)
  {
    assert y * width + width == (y + 1) * width;
    var next := y + 1;
    forall i, j | 0 <= i < |grid| && 0 <= j < width
      ensures PixelOK(grid, width, m, blocks, next, 0, i, j)
    {
      assert PixelOK(grid, width, m, blocks, y, width, i, j);
    }
  }

  /** Visiting a used pixel: it lies in a block already. */
  lemma VisitUsed(grid: seq<seq<ColorRGBA>>, width: int, m: iset<(int, int)>, blocks: seq<Block>,
                  skipped: int, y: int, x: int)
    requires Reachable(grid, width, m, blocks, skipped, y, x)
    requires 0 <= y < |grid| && 0 <= x < width && (y, x) in m
    ensures grid[y][x].A != 0
    ensures Reachable(grid, width, m, blocks, skipped, y, x + 1)
  {
    assert PixelOK(grid, width, m, blocks, y, x, y, x);
    var k :| 0 <= k < |blocks| && InBlock(blocks[k], y, x);
    assert EmittedOK(grid, width, blocks, k);
    var next := x + 1;
    forall i, j | 0 <= i < |grid| && 0 <= j < width
      ensures PixelOK(grid, width, m, blocks, y, next, i, j)
    {
      assert PixelOK(grid, width, m, blocks, y, x, i, j);
    }
    RowTransparentSkip(grid[y], x, x + 1);
  }

  /** Visiting an unused transparent pixel: it is marked and counted. */
  lemma VisitTransparent(grid: seq<seq<ColorRGBA>>, width: int, m: iset<(int, int)>, blocks: seq<Block>,
                         skipped: int, y: int, x: int)
    requires Reachable(grid, width, m, blocks, skipped, y, x)
    requires 0 <= y < |grid| && 0 <= x < width && (y, x) !in m && grid[y][x].A == 0
    ensures Reachable(grid, width, MarkRect(m, x, y, 1, 1), blocks, skipped + 1, y, x + 1)
  {
    var m', next := MarkRect(m, x, y, 1, 1), x + 1;
    assert !UniformVisible(grid) by {
      assert UniformVisible(grid) ==> grid[y][x] == grid[0][0];
    }
    forall i, j | 0 <= i < |grid| && 0 <= j < width
      ensures PixelOK(grid, width, m', blocks, y, next, i, j)
    {
      assert PixelOK(grid, width, m, blocks, y, x, i, j);
    }
  }

  /** A block grown from the seed (x, y), whose first row and first rows
      below hold the seed's colour and whose added pixels were unused and of
      that colour, is well formed. */
  lemma EmittedBlockWellFormed(grid: seq<seq<ColorRGBA>>, width: int, m: iset<(int, int)>, x: int, y: int,
                               w0: int, h0: int, w: int, h: int)
    requires IsGrid(grid, width, |grid|)
    requires 0 <= x && 1 <= w0 <= w && x + w <= width
    requires 0 <= y && 1 <= h0 <= h && y + h <= |grid|
    requires grid[y][x].A != 0
    requires forall j :: x < j < x + w0 ==> grid[y][j] == grid[y][x]
    requires forall i, j :: y < i < y + h0 && x <= j < x + w0 ==> grid[i][j] == grid[y][x]
    requires AddedCellsFree(grid, width, m, grid[y][x], x, y, w0, h0, w, h)
    ensures WellFormed(grid, width, BlockOf(x, y, w, h, grid[y][x]))
  {
    forall i, j | y <= i < y + h && x <= j < x + w && !(i < y + h0 && j < x + w0)
      ensures grid[i][j] == grid[y][x]
    {
      assert Free(grid, m, grid[y][x], i, j);
    }
  }

  /** The block grown from an unused visible seed is well formed; without
      equal neighbours it is the seed pixel alone; and on a uniform visible
      grid the first seed grows into the whole grid. */
  lemma SeedFacts(grid: seq<seq<ColorRGBA>>, width: int, m: iset<(int, int)>, x: int, y: int)
    requires IsGrid(grid, width, |grid|)
    requires 0 <= y < |grid| && 0 <= x < width && grid[y][x].A != 0
    ensures var r := Seed(grid, width, m, x, y);
      && WellFormed(grid, width, BlockOf(x, y, r.0, r.1, grid[y][x]))
      && (NoEqualNeighbours(grid, width) ==> r == (1, 1))
      && (UniformVisible(grid) && x == 0 && y == 0 ==> r == (width, |grid|))
  {
    var c := grid[y][x];
    var w0 := RunWidth(grid[y], x, c, width, 1);
    var h0 := RunHeight(grid, x, y, c, w0, |grid|, 1);
    RunWidthSpec(grid[y], x, c, width, 1);
    RunHeightSpec(grid, x, y, c, w0, |grid|, 1);
    ExpandFree(grid, width, m, c, x, y, w0, h0, w0, h0, width, |grid|);
    ExpandMaximal(grid, width, m, c, x, y, w0, h0, width, |grid|);
    var r := Expand(grid, width, m, c, x, y, w0, h0, width, |grid|);
    EmittedBlockWellFormed(grid, width, m, x, y, w0, h0, r.0, r.1);
    assert NoEqualNeighbours(grid, width) ==> Isolated(grid, width, y, x);
  }

  /** Visiting an unused visible pixel: the block grown from it is emitted
      and marked, and the scan moves past it. */
  lemma VisitSeed(grid: seq<seq<ColorRGBA>>, width: int, m: iset<(int, int)>, blocks: seq<Block>,
                  skipped: int, y: int, x: int)
    requires Reachable(grid, width, m, blocks, skipped, y, x)
    requires 0 <= y < |grid| && 0 <= x < width && (y, x) !in m && grid[y][x].A != 0
    ensures var r := Seed(grid, width, m, x, y);
      Reachable(grid, width, MarkRect(m, x, y, r.0, r.1), blocks + [BlockOf(x, y, r.0, r.1, grid[y][x])],
                skipped, y, x + r.0)
  {
    var r := Seed(grid, width, m, x, y);
    var block := BlockOf(x, y, r.0, r.1, grid[y][x]);
    var m', blocks' := MarkRect(m, x, y, r.0, r.1), blocks + [block];
    SeedFacts(grid, width, m, x, y);
    assert PixelOK(grid, width, m, blocks, y, x, y, x);
    forall k | 0 <= k < |blocks'|
      ensures EmittedOK(grid, width, blocks', k)
    {
      if k < |blocks| {
        assert EmittedOK(grid, width, blocks, k);
      } else {
        forall n | 0 <= n < |blocks|
          ensures Before(blocks[n].Y, blocks[n].X, y, x) && !InBlock(blocks[n], y, x)
        {
          if n < |blocks| - 1 {
            assert EmittedOK(grid, width, blocks, |blocks| - 1);
          }
        }
      }
    }
    var next := x + r.0;
    forall i, j | 0 <= i < |grid| && 0 <= j < width
      ensures PixelOK(grid, width, m', blocks', y, next, i, j)
    {
      assert PixelOK(grid, width, m, blocks, y, x, i, j);
      CoveredAppend(blocks, block, i, j);
    }
    RowTransparentSkip(grid[y], x, x + r.0);
  }

  lemma CoveredAppend(blocks: seq<Block>, b: Block, i: int, j: int)
    ensures Covered(blocks + [b], i, j) <==> Covered(blocks, i, j) || InBlock(b, i, j)
  {
    if Covered(blocks, i, j) {
      var k :| 0 <= k < |blocks| && InBlock(blocks[k], i, j);
      assert (blocks + [b])[k] == blocks[k];
    }
    if InBlock(b, i, j) {
      assert (blocks + [b])[|blocks|] == b;
    }
  }

  /** The state after the last row satisfies `Done`. */
  lemma Finish(grid: seq<seq<ColorRGBA>>, width: int, m: iset<(int, int)>, blocks: seq<Block>, skipped: int)
    requires Reachable(grid, width, m, blocks, skipped, |grid|, 0)
    ensures Done(grid, width, blocks, skipped)
  {
    forall i, j | 0 <= i < |grid| && 0 <= j < width
      ensures CoveredIffVisible(grid, blocks, i, j)
    {
      assert PixelOK(grid, width, m, blocks, |grid|, 0, i, j);
      if Covered(blocks, i, j) {
        var k :| 0 <= k < |blocks| && InBlock(blocks[k], i, j);
        assert EmittedOK(grid, width, blocks, k);
      }
    }
  }

  /** `Done` spelled out is `Final`. */
  lemma DoneFinal(grid: seq<seq<ColorRGBA>>, width: int, blocks: seq<Block>, skipped: int)
    requires IsGrid(grid, width, |grid|) && Done(grid, width, blocks, skipped)
    ensures Final(grid, width, blocks, skipped)
  {
    forall k | 0 <= k < |blocks|
      ensures WellFormed(grid, width, blocks[k])
      ensures NoEqualNeighbours(grid, width) ==> blocks[k].Width == 1 && blocks[k].Height == 1
      ensures forall n :: 0 <= n < k ==>
        Before(blocks[n].Y, blocks[n].X, blocks[k].Y, blocks[k].X) && !InBlock(blocks[n], blocks[k].Y, blocks[k].X)
    {
      assert EmittedOK(grid, width, blocks, k);
    }
    forall i, j | 0 <= i < |grid| && 0 <= j < width
      ensures Covered(blocks, i, j) <==> grid[i][j].A != 0
    {
      assert CoveredIffVisible(grid, blocks, i, j);
    }
  }

  /** Every run of the scan from a reachable state ends in a state
      satisfying `Done`. The induction follows `Scan`: one lemma per way the
      scan moves on. */
  lemma {:induction false} ScanSound(grid: seq<seq<ColorRGBA>>, width: nat, m: iset<(int, int)>,
                                     blocks: seq<Block>, skipped: nat, y: int, x: int)
    requires Reachable(grid, width, m, blocks, skipped, y, x)
    ensures Done(grid, width, Scan(grid, width, m, blocks, skipped, y, x).0,
                 Scan(grid, width, m, blocks, skipped, y, x).1)
    decreases |grid| - y, width - x, 1
  {
    if y == |grid| {
      Finish(grid, width, m, blocks, skipped);
    } else if x == width {
      NextRowSound(grid, width, m, blocks, skipped, y);
    } else if (y, x) in m {
      UsedSound(grid, width, m, blocks, skipped, y, x);
    } else if grid[y][x].A == 0 {
      TransparentSound(grid, width, m, blocks, skipped, y, x);
    } else {
      SeedSound(grid, width, m, blocks, skipped, y, x);
    }
  }

  lemma {:induction false} NextRowSound(grid: seq<seq<ColorRGBA>>, width: nat, m: iset<(int, int)>,
                                        blocks: seq<Block>, skipped: nat, y: int)
    requires 0 <= y < |grid| && Reachable(grid, width, m, blocks, skipped, y, width)
    ensures Done(grid, width, Scan(grid, width, m, blocks, skipped, y, width).0,
                 Scan(grid, width, m, blocks, skipped, y, width).1)
    decreases |grid| - y, 0, 0
  {
    NextRow(grid, width, m, blocks, skipped, y);
    ScanNextRow(grid, width, m, blocks, skipped, y);
    ScanSound(grid, width, m, blocks, skipped, y + 1, 0);
  }

  lemma {:induction false} UsedSound(grid: seq<seq<ColorRGBA>>, width: nat, m: iset<(int, int)>,
                                     blocks: seq<Block>, skipped: nat, y: int, x: int)
    requires Reachable(grid, width, m, blocks, skipped, y, x)
    requires 0 <= y < |grid| && 0 <= x < width && (y, x) in m
    ensures Done(grid, width, Scan(grid, width, m, blocks, skipped, y, x).0,
                 Scan(grid, width, m, blocks, skipped, y, x).1)
    decreases |grid| - y, width - x, 0
  {
    VisitUsed(grid, width, m, blocks, skipped, y, x);
    ScanUsedStep(grid, width, m, blocks, skipped, y, x);
    ScanSound(grid, width, m, blocks, skipped, y, x + 1);
  }

  lemma {:induction false} TransparentSound(grid: seq<seq<ColorRGBA>>, width: nat, m: iset<(int, int)>,
                                            blocks: seq<Block>, skipped: nat, y: int, x: int)
    requires Reachable(grid, width, m, blocks, skipped, y, x)
    requires 0 <= y < |grid| && 0 <= x < width && (y, x) !in m && grid[y][x].A == 0
    ensures Done(grid, width, Scan(grid, width, m, blocks, skipped, y, x).0,
                 Scan(grid, width, m, blocks, skipped, y, x).1)
    decreases |grid| - y, width - x, 0
  {
    VisitTransparent(grid, width, m, blocks, skipped, y, x);
    ScanTransparentStep(grid, width, m, blocks, skipped, y, x);
    ScanSound(grid, width, MarkRect(m, x, y, 1, 1), blocks, skipped + 1, y, x + 1);
  }

  lemma {:induction false} SeedSound(grid: seq<seq<ColorRGBA>>, width: nat, m: iset<(int, int)>,
                                     blocks: seq<Block>, skipped: nat, y: int, x: int)
    requires Reachable(grid, width, m, blocks, skipped, y, x)
    requires 0 <= y < |grid| && 0 <= x < width && (y, x) !in m && grid[y][x].A != 0
    ensures Done(grid, width, Scan(grid, width, m, blocks, skipped, y, x).0,
                 Scan(grid, width, m, blocks, skipped, y, x).1)
    decreases |grid| - y, width - x, 0
  {
    VisitSeed(grid, width, m, blocks, skipped, y, x);
    var r := Seed(grid, width, m, x, y);
    var block := BlockOf(x, y, r.0, r.1, grid[y][x]);
    ScanSeedStep(grid, width, m, blocks, skipped, y, x, block);
    ScanSound(grid, width, MarkRect(m, x, y, r.0, r.1), blocks + [block], skipped, y, x + r.0);
  }

  /** The decomposition of a whole grid satisfies `Final`. */
  lemma DecomposeSpec(grid: seq<seq<ColorRGBA>>, width: nat)
    requires IsGrid(grid, width, |grid|)
    ensures Final(grid, width, Decompose(grid, width).0, Decompose(grid, width).1)
  {
    Start(grid, width);
    ScanSound(grid, width, iset{}, [], 0, 0, 0);
    DoneFinal(grid, width, Decompose(grid, width).0, Decompose(grid, width).1);
  }

  /** The two colours and the grid `A B A` / `A A A` on which blocks overlap. */
  const OverlapA := ColorRGBA(0, 0, 0, 255)
  const OverlapB := ColorRGBA(255, 255, 255, 255)
  const OverlapGrid := [[OverlapA, OverlapB, OverlapA], [OverlapA, OverlapA, OverlapA]]

  /** The blocks the scan emits on `OverlapGrid`, in order. */
  const OverlapBlocks := [BlockOf(0, 0, 1, 2, OverlapA), BlockOf(1, 0, 1, 1, OverlapB),
                          BlockOf(2, 0, 1, 2, OverlapA), BlockOf(1, 1, 2, 1, OverlapA)]

  /** The used pixels after the first one, two and three blocks. */
  ghost const OverlapMask1 := MarkRect(iset{}, 0, 0, 1, 2)
  ghost const OverlapMask2 := MarkRect(OverlapMask1, 1, 0, 1, 1)
  ghost const OverlapMask3 := MarkRect(OverlapMask2, 2, 0, 1, 2)

  /** The three seeds of row 0: A stops at B and takes both rows, B stands
      alone, and the last A takes both rows. */
  lemma OverlapRow0Seeds()
    ensures IsGrid(OverlapGrid, 3, 2)
    ensures Seed(OverlapGrid, 3, iset{}, 0, 0) == (1, 2)
    ensures Seed(OverlapGrid, 3, OverlapMask1, 1, 0) == (1, 1)
    ensures Seed(OverlapGrid, 3, OverlapMask2, 2, 0) == (1, 2)
  {
    var grid, a, b := OverlapGrid, OverlapA, OverlapB;
    assert IsGrid(grid, 3, 2);
    assert RunWidth(grid[0], 0, a, 3, 1) == 1;
    assert RowIs(grid, 1, 0, 1, a);
    assert RunHeight(grid, 0, 0, a, 1, 2, 1) == 2;
    assert !Free(grid, iset{}, a, 0, 1);
    assert Expand(grid, 3, iset{}, a, 0, 0, 1, 2, 3, 2) == (1, 2);

    assert RunWidth(grid[0], 1, b, 3, 1) == 1;
    assert grid[1][1] != b;
    assert RunHeight(grid, 1, 0, b, 1, 2, 1) == 1;
    assert !Free(grid, OverlapMask1, b, 0, 2) && !Free(grid, OverlapMask1, b, 1, 1);
    assert Expand(grid, 3, OverlapMask1, b, 1, 0, 1, 1, 3, 2) == (1, 1);

    assert RunWidth(grid[0], 2, a, 3, 1) == 1;
    assert RowIs(grid, 1, 2, 3, a);
    assert RunHeight(grid, 2, 0, a, 1, 2, 1) == 2;
    assert Expand(grid, 3, OverlapMask2, a, 2, 0, 1, 2, 3, 2) == (1, 2);
  }

  /** Row 0 emits the first three blocks. */
  lemma OverlapRow0()
    ensures IsGrid(OverlapGrid, 3, 2)
    ensures Scan(OverlapGrid, 3, iset{}, [], 0, 0, 0) == Scan(OverlapGrid, 3, OverlapMask3, OverlapBlocks[..3], 0, 1, 0)
  {
    OverlapRow0Seeds();
    var grid, bs := OverlapGrid, OverlapBlocks;
    ScanSeedStep(grid, 3, iset{}, [], 0, 0, 0, bs[0]);
    ScanSeedStep(grid, 3, OverlapMask1, [bs[0]], 0, 0, 1, bs[1]);
    ScanSeedStep(grid, 3, OverlapMask2, [bs[0], bs[1]], 0, 0, 2, bs[2]);
    assert [] + [bs[0]] == [bs[0]] && [bs[0]] + [bs[1]] == [bs[0], bs[1]];
    assert [bs[0], bs[1]] + [bs[2]] == bs[..3];
    ScanNextRow(grid, 3, OverlapMask3, bs[..3], 0, 0);
  }

  /** Row 1: column 0 is used, and column 1 seeds a run of two that takes in
      the used column 2. */
  lemma OverlapRow1()
    ensures IsGrid(OverlapGrid, 3, 2)
    ensures Scan(OverlapGrid, 3, OverlapMask3, OverlapBlocks[..3], 0, 1, 0) == (OverlapBlocks, 0)
  {
    var grid, a, bs := OverlapGrid, OverlapA, OverlapBlocks;
    assert IsGrid(grid, 3, 2);
    assert (1, 0) in OverlapMask3 && (1, 1) !in OverlapMask3;
    ScanUsedStep(grid, 3, OverlapMask3, bs[..3], 0, 1, 0);
    assert RunWidth(grid[1], 1, a, 3, 1) == 2;
    assert RunHeight(grid, 1, 1, a, 2, 2, 1) == 1;
    assert Expand(grid, 3, OverlapMask3, a, 1, 1, 2, 1, 3, 2) == (2, 1);
    ScanSeedStep(grid, 3, OverlapMask3, bs[..3], 0, 1, 1, bs[3]);
    assert bs[..3] + [bs[3]] == bs;
    ScanNextRow(grid, 3, MarkRect(OverlapMask3, 1, 1, 2, 1), bs, 0, 1);
  }

  /** Blocks can overlap. On `OverlapGrid` the block seeded at row 1,
      column 1 runs over pixel (1, 2), which the block seeded at row 0,
      column 2 already covers: the run and extent searches never read the
      `used` matrix, only the expansion does. */
  lemma OverlapExample()
    ensures IsGrid(OverlapGrid, 3, 2)
    ensures Decompose(OverlapGrid, 3) == (OverlapBlocks, 0)
    ensures InBlock(OverlapBlocks[2], 1, 2) && InBlock(OverlapBlocks[3], 1, 2)
  {
    OverlapRow0();
    OverlapRow1();
  }

  /** A uniform visible grid decomposes into the single block covering it. */
  lemma DecomposeUniform(grid: seq<seq<ColorRGBA>>, width: nat)
    requires IsGrid(grid, width, |grid|) && UniformVisible(grid)
    ensures Decompose(grid, width).0 == [BlockOf(0, 0, width, |grid|, grid[0][0])]
  {
    DecomposeSpec(grid, width);
  }

  /** Without equal neighbours every visible pixel is a 1 x 1 block of its
      own; without transparency either, there are exactly width * height
      blocks. */
  lemma DecomposeNoEqualNeighbours(grid: seq<seq<ColorRGBA>>, width: nat)
    requires IsGrid(grid, width, |grid|) && NoEqualNeighbours(grid, width)
    ensures forall k :: 0 <= k < |Decompose(grid, width).0| ==>
      Decompose(grid, width).0[k].Width == 1 && Decompose(grid, width).0[k].Height == 1
    ensures |Decompose(grid, width).0| + TransparentCount(grid) == |grid| * width
    ensures AllVisible(grid) ==> |Decompose(grid, width).0| == |grid| * width
  {
    DecomposeSpec(grid, width);
    TransparentCountZero(grid, |grid|);
  }
}
