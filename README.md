# img-2-svg in Dafny

img-2-svg turns a raster image into an SVG document made of `<rect>`
elements. Its core has four parts, and this project models all four:

- **The decomposition engine** (`image_processor.go`). It quantises the
  image into a grid of 8-bit RGBA colours. It then scans the grid row by
  row with a `used` matrix:
  - a fully transparent pixel is marked used and counted as skipped;
  - any other unused pixel seeds a block. The block gets the longest run
    of its colour to the right, then the deepest extent of that run below
    it. Then it is grown greedily one column right and one row down over
    unused pixels of the same colour, until neither grows.
  - the block is emitted, marked used, and the scan jumps past it.
- **The SVG serialiser** (`svg_generator.go`). It writes an XML
  declaration and `<svg>` root, one `<rect>` per visible block, and
  `</svg>`. Colours use the 3-digit hex shorthand when every channel has
  equal nibbles (CSS Color Module Level 3, section 4.2.1). Translucent
  blocks get a three-decimal `fill-opacity`.
- **The dimension validators** (`validator.go`).
- **The output-name rewrite** (`utils.go`).

## Files

- `image_processor.dfy`, module `ImageProcessor`.
  - The grid is a `seq<seq<ColorRGBA>>`. The `used` matrix is an
    `array2<bool>` that the methods update in place, as the source does.
  - Every loop of the source is a method with invariants:
    `FindMaxWidth`, `FindMaxHeight`, `ExpandBlock` (whose pass is
    `GrowOnce`, with `ColumnCanGrow` and `RowCanGrow` as its two inner
    loops), `MarkBlockUsed`, `CreateColorGrid`, and `FindOptimalBlocks`
    (whose row loop is `ScanRow` and whose loop body is `VisitPixel` and
    `EmitBlock`).
  - Each method is proved equal to a ghost specification: `RunWidth`,
    `RunHeight`, `Expand`, `MarkRect`, `Scan` and `Decompose`. The
    properties are then proved about the specification, as lemmas.
- `svg_generator.dfy`, module `SvgGenerator`.
  - Colour and opacity encoding.
  - The document text `Document`.
  - The class `SVGWriter`, whose output file is the character sequence
    `written` that its methods append to.
  - A parser `ParseDocument` that reads the blocks back out of the
    document, which gives the round trip.
- `strconv.dfy`, module `Strconv`: decimal integer text, as Go's
  `strconv.Itoa` writes it, and its reader.
- `validator.dfy`, module `Validator`.
- `utils.dfy`, module `Utils`. Go's `filepath.Ext` is written out as
  `Ext`.
- `wrappers.dfy`, module `Wrappers`: the `Option` type.

## Model

| member | source | states |
|---|---|---|
| ImageProcessor.ToUint64 | image_processor.go:114-116 | the packed colour fits in 32 bits |
| ImageProcessor.BlockOf | image_processor.go:152-161 | the block has the given colour and covers exactly the rows y .. y+height-1 and columns x .. x+width-1 |
| ImageProcessor.FromToUint64 | image_processor.go:114-116 | unpacking the packed value gives back R, G, B and A |
| ImageProcessor.ToUint64Injective | image_processor.go:114-116 | two colours pack to the same number iff they are equal |
| ImageProcessor.Quantize | image_processor.go:97-100 | for a 16-bit channel v, `v >> 8` is the byte q with 256q <= v < 256q + 256 |
| ImageProcessor.QuantizeSample | image_processor.go:96-101 | each channel of the 8-bit colour is the high byte of the matching 16-bit channel |
| ImageProcessor.CreateColorGrid | image_processor.go:90-106 | the grid has `height` rows of `width` cells, and cell (x, y) holds each channel of the source pixel at (x, y) shifted right by 8 |
| ImageProcessor.RowTransparentZero | image_processor.go:141-144 | a row prefix has no transparent pixel iff its transparent count is 0 |
| ImageProcessor.TransparentCountZero | image_processor.go:141-144 | the grid's transparent count is 0 iff every pixel is visible |
| ImageProcessor.RunWidth | image_processor.go:177-183 | the run never shrinks and never passes maxX |
| ImageProcessor.RunWidthSpec | image_processor.go:177-183 | the run holds `color` on every column after x, and it stops at maxX or at a column of another colour |
| ImageProcessor.FindMaxWidth | image_processor.go:177-183 | returns w >= 1 with x + w <= maxX; columns x+1 .. x+w-1 of row y equal `color`; either x + w == maxX or column x + w differs. The generic method also models the `uint32` copy at image_processor.go:240-246 |
| ImageProcessor.RunHeight | image_processor.go:185-196 | the extent never shrinks and never passes maxY |
| ImageProcessor.RunHeightSpec | image_processor.go:185-196 | rows after y hold `color` across the width, and the extent stops at maxY or at a row with a mismatch |
| ImageProcessor.FindMaxHeight | image_processor.go:185-196 | returns h >= 1 with y + h <= maxY; rows y+1 .. y+h-1 equal `color` over columns x .. x+width-1; row y itself is not checked; either y + h == maxY or row y + h has a mismatch in that span. The generic method also models the `uint32` copy at image_processor.go:248-259 |
| ImageProcessor.GrowRight | image_processor.go:204-216 | adding a free column keeps every added cell unused and of the block's colour |
| ImageProcessor.GrowDown | image_processor.go:218-230 | adding a free row keeps every added cell unused and of the block's colour |
| ImageProcessor.Expand | image_processor.go:198-238 | the grown block is at least as large as the start and stays within maxX and maxY |
| ImageProcessor.ExpandFree | image_processor.go:204-230 | every cell added by the expansion was unused and of the block's colour when it was added |
| ImageProcessor.ExpandMaximal | image_processor.go:232-234 | when the expansion stops, neither the next column over the grown height nor the next row over the grown width can be added |
| ImageProcessor.ExpandStep | image_processor.go:201-235 | one pass tries right and then down, and the fixpoint reached from the grown size is the fixpoint reached from the old size |
| ImageProcessor.ColumnCanGrow | image_processor.go:205-211 | the answer is true iff every cell of the next column is unused and equal to `color` |
| ImageProcessor.RowCanGrow | image_processor.go:219-225 | the answer is true iff every cell of the next row, over the current width, is unused and equal to `color` |
| ImageProcessor.GrowOnce | image_processor.go:202-230 | one pass grows within bounds; `expanded` is true iff the size changed; and the expansion from the new size equals the expansion from the old size |
| ImageProcessor.ExpandBlock | image_processor.go:198-238 | the loop terminates, and the result is `Expand` of the start size |
| ImageProcessor.MarkBlockUsed | image_processor.go:261-267 | exactly the cells of the rectangle clipped to the matrix become true; every other cell is unchanged |
| ImageProcessor.MarkRect | image_processor.go:261-267 | the new mask is the old mask plus exactly the rectangle's cells |
| ImageProcessor.Seed | image_processor.go:147-150 | the block grown from a seed has width and height >= 1 and lies inside the grid |
| ImageProcessor.Scan | image_processor.go:132-167 | defines the nested row and column loops: row by row, left to right, a used pixel is passed over, a transparent pixel is marked and counted, and any other pixel seeds a block. The result keeps every block already emitted as a prefix, and the count never goes down |
| ImageProcessor.ScanFromSeed | image_processor.go:147-165 | defines the seed case: the `Seed` block is appended and marked, and the scan resumes after its width. The result holds at least one block more than before, with the earlier blocks as a prefix |
| ImageProcessor.Decompose | image_processor.go:119-174 | defines the whole decomposition as the scan from (0, 0) with an empty `used` matrix, no blocks and a zero count. `FindOptimalBlocks` is proved equal to it, and `DecomposeSpec` states its properties |
| ImageProcessor.ScanNextRow | image_processor.go:132-133 | the end of a row continues at column 0 of the next row |
| ImageProcessor.ScanUsedStep | image_processor.go:134-136 | a used pixel is passed over |
| ImageProcessor.ScanTransparentStep | image_processor.go:141-145 | a transparent pixel is marked used and counted, and the scan moves on one column |
| ImageProcessor.ScanSeedStep | image_processor.go:147-165 | a visible unused pixel emits its block, marks it used, and resumes after the block's width |
| ImageProcessor.EmitBlock | image_processor.go:147-163 | the emitted block is the seed's colour at the size `Seed` gives, and the matrix gains exactly that block's cells |
| ImageProcessor.VisitPixel | image_processor.go:134-165 | one visit moves the column forward within the row, keeps the matrix equal to the mask, and leaves the scan's final result unchanged |
| ImageProcessor.ScanRow | image_processor.go:133-166 | scanning a row leaves the scan's final result unchanged |
| ImageProcessor.FindOptimalBlocks | image_processor.go:119-174 | the blocks and the skipped count are those `Decompose` specifies |
| ImageProcessor.Start | image_processor.go:120-126 | the empty matrix and empty block list satisfy the scan invariant |
| ImageProcessor.NextRow | image_processor.go:132-133 | moving to the next row keeps the scan invariant |
| ImageProcessor.VisitUsed | image_processor.go:134-136 | a used pixel is visible, and passing it keeps the invariant |
| ImageProcessor.VisitTransparent | image_processor.go:141-145 | skipping a transparent pixel keeps the invariant |
| ImageProcessor.EmittedBlockWellFormed | image_processor.go:147-161 | a block grown from a visible seed is in bounds, at least 1 x 1, visible, and a single colour |
| ImageProcessor.SeedFacts | image_processor.go:147-150 | the seed's block is well formed; without equal neighbours it is the seed pixel alone; on a uniform visible grid the first seed grows into the whole grid |
| ImageProcessor.VisitSeed | image_processor.go:147-165 | emitting the seed's block keeps the invariant, including the row-major order of block origins |
| ImageProcessor.CoveredAppend | image_processor.go:152-161 | after a block is appended, a pixel is covered iff it was covered before or lies in the new block |
| ImageProcessor.Finish | image_processor.go:167-173 | the invariant at the end of the grid gives the final guarantees |
| ImageProcessor.DoneFinal | image_processor.go:119-174 | the end-of-scan facts give `Final`: no block origin lies in an earlier block, and origins are strictly row-major |
| ImageProcessor.ScanSound | image_processor.go:132-167 | from any state the scan reaches, the finished scan satisfies the final guarantees |
| ImageProcessor.NextRowSound | image_processor.go:132-133 | the same, from the end of a row |
| ImageProcessor.UsedSound | image_processor.go:134-136 | the same, from a used pixel |
| ImageProcessor.TransparentSound | image_processor.go:141-145 | the same, from a transparent pixel |
| ImageProcessor.SeedSound | image_processor.go:147-165 | the same, from a seed pixel |
| ImageProcessor.DecomposeSpec | image_processor.go:119-174 | the decomposition meets `Final`. Every block is at least 1 x 1, in bounds, of one visible colour. A pixel is covered iff its alpha is not 0. Origins are strictly increasing in row-major order. The skipped count is the number of alpha-0 pixels |
| ImageProcessor.DecomposeUniform | image_processor.go:147-163 | a uniform opaque grid yields exactly one block: (0, 0, width, height) in its colour |
| ImageProcessor.DecomposeNoEqualNeighbours | image_processor.go:147-163 | a grid with no equal orthogonal neighbours yields only 1 x 1 blocks, one per visible pixel; with no transparency that is width * height blocks |
| ImageProcessor.OverlapRow0Seeds | image_processor.go:147-150 | on the rows `A B A` / `A A A`, the seeds of row 0 grow to 1 x 2, 1 x 1 and 1 x 2 |
| ImageProcessor.OverlapRow0 | image_processor.go:132-165 | row 0 of that grid emits (0,0,1,2), (1,0,1,1) and (2,0,1,2) |
| ImageProcessor.OverlapRow1 | image_processor.go:132-167 | row 1 passes over the used pixel (1, 0), and the seed at (1, 1) runs over the used pixel (1, 2), giving (1,1,2,1) |
| ImageProcessor.OverlapExample | image_processor.go:147-148 | the decomposition of that grid is exactly those four blocks, and two of them cover pixel (1, 2): blocks may overlap, because the run and extent searches do not read `used` |
| SvgGenerator.HexValue | svg_generator.go:110-115 | a hex digit's value is below 16 |
| SvgGenerator.Hi | svg_generator.go:100 | `v >> 4` is the nibble h < 16 with 16h <= v < 16h + 16 |
| SvgGenerator.Lo | svg_generator.go:100 | `v & 0x0F` is the nibble l < 16 with v == 16 * (v >> 4) + l |
| SvgGenerator.EqualNibbles | svg_generator.go:100 | a byte's two nibbles are equal iff it is a multiple of 0x11 |
| SvgGenerator.Shorthand | svg_generator.go:100 | the shorthand test holds iff each of r, g and b is a multiple of 0x11 |
| SvgGenerator.HexChar | svg_generator.go:110-115 | 0-9 give '0'-'9', 10-15 give 'a'-'f', and the digit reads back as its value |
| SvgGenerator.HexCharInjective | svg_generator.go:110-115 | on 0..15, different values give different digits |
| SvgGenerator.OptimizeColor | svg_generator.go:98-108 | the text starts with '#'; its length is 4 iff each channel's high nibble equals its low nibble, and 7 otherwise |
| SvgGenerator.HexByteOf | svg_generator.go:105-107 | two hex digits read back as the byte they encode |
| SvgGenerator.ParseOptimizeColor | svg_generator.go:98-108 | reading the colour text recovers (r, g, b), with shorthand digits doubled |
| SvgGenerator.OptimizeColorShorthandExample | svg_generator.go:100-101 | (0x11, 0x22, 0x33) gives "#123" |
| SvgGenerator.OptimizeColorFullExample | svg_generator.go:105-107 | (0x12, 0x34, 0x56) gives "#123456" |
| SvgGenerator.Thousandths | svg_generator.go:82-84 | the number of thousandths is within half a thousandth of a/255, and below 1000 when a < 255 |
| SvgGenerator.OpacityText | svg_generator.go:82-84 | the opacity text is five characters |
| SvgGenerator.AlphaOfThousandths | svg_generator.go:82-84 | the alpha can be recovered from the rounded thousandths |
| SvgGenerator.ThreeDigitsValue | svg_generator.go:84 | three digits read back as the number they spell |
| SvgGenerator.Header | svg_generator.go:59-66 | defines the header text: the XML declaration, then an `<svg>` start tag with the width and height in decimal and the SVG namespace. `ParseDocumentOf` reads it back |
| SvgGenerator.RectStart | svg_generator.go:77-79 | defines the start of an element: `<rect` with x, y, width and height in decimal and the optimised fill colour. `ParseRectElement` reads it back |
| SvgGenerator.ParseOpacityText | svg_generator.go:82-85 | the opacity text reads back as the alpha it was written from |
| SvgGenerator.RectElement | svg_generator.go:68-90 | a block writes nothing iff its alpha is 0 |
| SvgGenerator.Body | svg_generator.go:46-54 | the elements of the blocks in order; empty iff every block has alpha 0 |
| SvgGenerator.Document | svg_generator.go:38-57 | the whole file begins with the header and ends with the footer `</svg>` (svg_generator.go:93) |
| SvgGenerator.Visible | svg_generator.go:70-72 | the written blocks are the input blocks with alpha != 0, none added |
| SvgGenerator.BodyAppend | svg_generator.go:46-54 | the body of one more block is the old body followed by that block's element |
| SvgGenerator.DocumentEmpty | svg_generator.go:38-57 | an empty block list gives the header followed immediately by `</svg>` |
| SvgGenerator.Literal | svg_generator.go:77-79 | a matched literal consumes exactly its own length |
| SvgGenerator.LiteralOf | svg_generator.go:77-79 | a literal at the front of the text is matched and removed |
| SvgGenerator.QuoteIndex | svg_generator.go:79 | the index of the first '"' lies within the text |
| SvgGenerator.UntilQuote | svg_generator.go:79 | the text after the value is no longer than the input |
| SvgGenerator.UntilQuoteOf | svg_generator.go:79 | a value without quotes is read up to the closing quote |
| SvgGenerator.QuoteIndexOf | svg_generator.go:79 | a value without quotes ends where the closing quote starts |
| SvgGenerator.ColorNoQuote | svg_generator.go:98-108 | colour text has no quote character |
| SvgGenerator.OpacityNoQuote | svg_generator.go:82-85 | opacity text has no quote character |
| SvgGenerator.IntField | svg_generator.go:77-78 | a successful read consumes input |
| SvgGenerator.IntFieldOf | svg_generator.go:77-78 | an attribute name followed by an integer's text reads back as that integer |
| SvgGenerator.FillField | svg_generator.go:79 | a successful read consumes input |
| SvgGenerator.FillFieldOf | svg_generator.go:79 | `" fill="` followed by a colour's text reads back as that colour |
| SvgGenerator.AlphaTailOpaque | svg_generator.go:87 | an element with no `fill-opacity` reads back with alpha 255 |
| SvgGenerator.AlphaTailTranslucent | svg_generator.go:82-87 | the `fill-opacity` attribute reads back as the alpha it was written from |
| SvgGenerator.ElementTailOf | svg_generator.go:77-87 | a visible block's element, after its fill colour, reads back as the block's alpha |
| SvgGenerator.ParseRect | svg_generator.go:77-87 | a successful read consumes input |
| SvgGenerator.ParseRectElement | svg_generator.go:68-90 | a visible block's `<rect>` element reads back as exactly that block, whatever follows it |
| SvgGenerator.ParseBodyOf | svg_generator.go:46-56 | the elements and the footer read back as the visible blocks, in input order |
| SvgGenerator.ParseDocumentOf | svg_generator.go:38-66 | the whole document reads back as its width, its height and the visible blocks in input order |
| SvgGenerator.SVGWriter.constructor | svg_generator.go:30-36 | a new writer holds the given width and height, and nothing is written yet |
| SvgGenerator.SVGWriter.WriteBlocks | svg_generator.go:38-57 | appends the header, then each block's element in input order, then the footer |
| SvgGenerator.SVGWriter.WriteHeader | svg_generator.go:59-66 | appends the XML declaration and the `<svg>` start tag with the writer's width and height |
| SvgGenerator.SVGWriter.WriteBlock | svg_generator.go:68-90 | appends nothing when A == 0; otherwise appends the block's `<rect>`. With A == 255 the element has integer x, y, width and height, a `fill`, and no `fill-opacity` |
| SvgGenerator.SVGWriter.WriteFooter | svg_generator.go:92-95 | appends `</svg>` |
| SvgGenerator.GenerateSvgFile | svg_generator.go:9-22 | the file's text is the document of the given blocks |
| Strconv.Digit | svg_generator.go:77-78 | a digit character has the digit's value |
| Strconv.NatToString | svg_generator.go:77-78 | a natural number's text is non-empty, all digits, and has no leading zero unless the number is 0 |
| Strconv.Itoa | svg_generator.go:77-78 | an integer's text is non-empty, starts with '-' iff the number is negative, and otherwise consists of digits |
| Strconv.DigitsValueOfNat | svg_generator.go:77-78 | a natural number's digits read back as the number |
| Strconv.DigitRun | svg_generator.go:77-78 | the digit run at the front is maximal |
| Strconv.ReadInt | svg_generator.go:77-78 | a successful read consumes input |
| Strconv.DigitRunOf | svg_generator.go:77-78 | the digit run of digits followed by a non-digit is exactly those digits |
| Strconv.ReadItoa | svg_generator.go:77-78 | an integer's text, followed by a non-digit, reads back as that integer |
| Validator.ValidateDimensions | validator.go:110-121 | no error iff both dimensions are in 0..100000 and not both 0; a negative dimension is reported first, then one above 100000, then (0, 0) |
| Validator.ValidateImageDimensions | validator.go:123-135 | no error iff both dimensions are in 1..30000 and their product is at most 500000000; the checks apply in that order, and the pixel count is only computed once both sides are capped |
| Validator.SingleZeroAccepted | validator.go:117-120 | a single zero is accepted when the other value is in 1..100000 |
| Validator.PixelCapExamples | validator.go:129-132 | 22360 x 22360 passes, and 22361 x 22361 has too many pixels |
| Utils.ExtStart | utils.go:10 | the extension starts at a '.' after which there is no '.' and no separator; there is none iff the final path element has no dot |
| Utils.Ext | utils.go:10 | the extension is a suffix of the path that starts with '.' and holds no further dot or separator; it is empty iff the final element has no dot |
| Utils.GenerateOutputName | utils.go:9-13 | the result ends in ".svg", and what precedes it, followed by the extension, is the input |
| Utils.OutputNameWithoutExtension | utils.go:9-13 | an input whose final element has no dot just gets ".svg" appended |
| Utils.ExtOfSuffix | utils.go:10 | a path ending in a dot-extension has that extension |
| Utils.OutputNameReplacesExtension | utils.go:9-13 | the extension is replaced by ".svg" |
| Utils.GenerateOutputNameIdempotent | utils.go:9-13 | renaming an output name again returns the same name |
| Utils.OutputNameDirectoryDot | utils.go:10-12 | "a.b/c" becomes "a.b/c.svg": a dot in a directory is not an extension |
| Utils.OutputNameLastDot | utils.go:10-12 | "photos/cat.tar.png" becomes "photos/cat.tar.svg": only the last dot of the final element counts |

## Left out

- Image decoding, resizing and the loaders (`loadAndPrepareImage`,
  `loadAndValidateImage`) and `hasTransparency`. They work on Go's
  `image.Image` interface and the file system. `CreateColorGrid` takes the
  pixel source as a function from (x, y) to 16-bit RGBA channels instead.
- The `quiet`-gated console output, and the progress tracker
  (progress.go) that `createColorGrid` and `WriteBlocks` update. They are
  observational and do not affect results.
- main.go, an earlier variant of the program.
- File creation and write errors. `SVGWriter` appends to the character
  sequence `written` instead of writing to a file, so the methods cannot
  fail; the `error` results of the Go methods are not modelled.
- `validateInputs`, `validateInputFile` and `validateOutputFile`. They
  probe the file system.
- `getFileSize`, `formatFileSize`, `calculateSizeReduction`,
  `reportConversionResults` and `printConversionSummary`. They are OS
  calls, float formatting and printing.
- Validator.ValidateDimensions: the error values carry the numbers the
  message reports, but not the message text itself.
- Validator.ValidateImageDimensions: the same, for the message text.
  Go's `int` is 64-bit. The product is computed only after both sides
  are at most 30000, so it cannot overflow, and the model computes it
  on unbounded integers.
- Utils.Ext: only '/' is a separator, as on Unix; Windows volume names and
  '\' are not modelled.
- SvgGenerator.Thousandths: the `fill-opacity` text is the exact
  three-decimal rounding of a/255, not a float64 computation. 1000a/255
  is never within 1/102 of a half-thousandth, far more than the float64
  error, so `strconv.FormatFloat(a/255, 'f', 3, 64)` prints the same
  digits.
- ImageProcessor.FindOptimalBlocks: it also returns the skipped count,
  which the source only prints. Its loop body is split into the methods
  `VisitPixel` (one column) and `EmitBlock` (one block), and its row loop
  is `ScanRow`. In the same way, the pass of `expandBlockRGBA` is
  `GrowOnce`, and its two scans are `ColumnCanGrow` and `RowCanGrow`.
- ImageProcessor.FindOptimalBlocks: blocks are not proved pairwise
  disjoint, because they are not. `findMaxWidthRGBA` and
  `findMaxHeightRGBA` never read the `used` matrix. The rows `A B A` /
  `A A A` give the blocks (0,0,1,2), (1,0,1,1), (2,0,1,2) and (1,1,2,1),
  and the last of these overlaps (2,0,1,2); `OverlapExample` proves it.
  What is proved for every grid is that no block's origin lies in an
  earlier block.
- SvgGenerator.HexChar: the contract covers nibbles (0..15), the only
  values `optimizeColor` passes. For larger bytes the body wraps modulo
  256 as Go's `byte` arithmetic does, but no contract states it.
- ImageProcessor.FindOptimalBlocks: the grid must have exactly `height`
  rows of `width` cells. With a smaller grid, Go indexes out of range. A
  larger one is read only in its top-left width x height part, which the
  model does not cover. `createColorGrid`, the only producer of the grid,
  builds it at exactly that size.
