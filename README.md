# glcdPrimitives in Dafny

A model of `glcdPrimitives.c`. It is a small rasteriser for a 256 x 320 colour graphic LCD. It draws pixels, lines, rectangles, circles, filled circles and bitmap-font text into a caller-owned framebuffer of 16-bit RGB565 cells. The framebuffer is row-major, and cell (x, y) is at offset `x + y * 256`.

The module-level state of the C file becomes the fields of one class, `GlcdPrimitives.Glcd`:

- the framebuffer, an `array<Color>` of 256 * 320 cells;
- the current font blob and the four header fields `glcd_setFont` copies out of it;
- the transparency flag;
- the foreground and background colours.

Every routine is a method that writes `fb` in place with the same loops, counters and error terms as the C code. Each is proved to leave `fb[..]` equal to a specification function of the old contents:

- `Screen.Plotted(s, pts, c)` is the framebuffer after writing colour `c` at each point of a run. `Screen.WrittenInOrderIsPlotted` shows that it equals carrying out the writes one by one, in order.
- `Lines.LinePoints` lists the pixels `glcd_plotLine` writes, in order. The Bresenham runs are given in closed form: the minor offset of the k-th pixel is k * minor / major, rounded to the nearest integer with halves rounded up. `Lines.RoundStep` proves that the error-term loop computes exactly that.
- `Shapes.RectPoints`, `Shapes.FillRectPoints`, `Shapes.CirclePoints` and `Shapes.FillCirclePoints` give the pixel runs of the shape routines.
- `Glyphs.CharImage` and `Glyphs.StringImage` give the framebuffer after a character or a string is drawn.

Lemmas about these functions state what the routines promise:

- the line's end points, length, connectivity and bounding box;
- that a rectangle's outline is exactly the border of its box, and that a filled rectangle is exactly the box;
- that the circle outline is eight-way symmetric and stays in a ring around the ideal circle;
- the row spans of the filled circle;
- the MSB-first bit order of the font;
- how glyphs are laid out in the blob.

The modules follow the program's parts:

| module | file | contents |
|---|---|---|
| `Screen` | `screen.dfy` | geometry, colours, pixel-write runs |
| `Lines` | `lines.dfy` | `glcd_plotLine` |
| `Shapes` | `shapes.dfy` | rectangles and circles |
| `Glyphs` | `glyphs.dfy` | fonts, characters and strings |
| `GlcdPrimitives` | `glcd.dfy` | the stateful class |

Two consequences of the code that a reader might not expect:

- The glyph stride is floor(w * h / 8) bytes (glcdPrimitives.c:106), and so is `Glyphs.Stride`. When w * h is not a multiple of 8, consecutive glyphs share a byte.
- There is no setter for `transparentMode`; it is only initialised (glcdPrimitives.c:24). The model exposes it as a field that callers assign directly.

## Model

| member | source | states |
|---|---|---|
| GlcdPrimitives.Glcd.constructor | glcdPrimitives.c:23-27 | The initial state: no font, opaque mode, white foreground, black background, drawing into the given buffer. |
| GlcdPrimitives.Glcd.SetFrameBuffer | glcdPrimitives.c:50-53 | The framebuffer becomes the given buffer; font, mode and colours are unchanged. |
| GlcdPrimitives.Glcd.SetFont | glcdPrimitives.c:35-42 | The font becomes the blob. Width, height, first code and glyph count are its bytes 0-3. Nothing else changes. |
| GlcdPrimitives.Glcd.SetForegroundColor | glcdPrimitives.c:61-64 | Only the foreground colour changes, to the given one. |
| GlcdPrimitives.Glcd.SetBackgroundColor | glcdPrimitives.c:72-75 | Only the background colour changes, to the given one. |
| GlcdPrimitives.Glcd.FillScreen | glcdPrimitives.c:83-93 | Every one of the 256 * 320 cells holds the colour afterwards. |
| GlcdPrimitives.Glcd.PlotPixel | glcdPrimitives.c:181-184 | Exactly the cell at x + y * 256 becomes the colour; every other cell is unchanged. |
| GlcdPrimitives.Glcd.PlotLine | glcdPrimitives.c:194-251 | The framebuffer is the old one with the pixels of LinePoints set to the colour, and those pixels are on screen. |
| GlcdPrimitives.Glcd.PlotVerticalRun | glcdPrimitives.c:206-212 | The dx == 0 path writes the column cells from the lower y to the higher one, in that order. |
| GlcdPrimitives.Glcd.PlotHorizontalRun | glcdPrimitives.c:213-219 | The dy == 0 path writes the row cells from the lower x to the higher one, in that order. |
| GlcdPrimitives.Glcd.PlotXMajorRun | glcdPrimitives.c:221-234 | The x-major Bresenham loop writes exactly LinePoints. Its invariant ties x, y and the error term to the closed form at every iteration. |
| GlcdPrimitives.Glcd.PlotYMajorRun | glcdPrimitives.c:235-249 | The y-major loop writes exactly LinePoints, with the same invariant as the x-major one and the axes swapped. |
| GlcdPrimitives.Glcd.PlotRect | glcdPrimitives.c:261-267 | The four line calls together write RectPoints: top, right, bottom, left. |
| GlcdPrimitives.Glcd.FillRect | glcdPrimitives.c:277-285 | Whatever the corner order, one horizontal line per row of the box, from the smaller row to the larger. |
| GlcdPrimitives.Glcd.PlotRows | glcdPrimitives.c:280-284 | The row loop writes FillRectRows for rows lo..hi. |
| GlcdPrimitives.Glcd.PlotCircle | glcdPrimitives.c:295-325 | The four axis points, then the eight mirrored pixels of every step of the decision loop (CirclePoints). The loop terminates and keeps CircleState. |
| GlcdPrimitives.Glcd.PlotAxisPoints | glcdPrimitives.c:303-306 | The four writes before the loop: (x, y+r), (x, y-r), (x+r, y), (x-r, y). |
| GlcdPrimitives.Glcd.PlotOctants | glcdPrimitives.c:316-323 | The eight writes of one loop step, in source order. |
| GlcdPrimitives.Glcd.PlotQuad | glcdPrimitives.c:316-319 | Four of those writes: (a, b) mirrored across both axes. |
| GlcdPrimitives.Glcd.FillCircle | glcdPrimitives.c:335-347 | The framebuffer is the old one with the spans of the rows -r..0 (FillCirclePoints) set to the colour. |
| GlcdPrimitives.Glcd.FillRow | glcdPrimitives.c:339-345 | One pass of the outer loop. The scan stops at FirstX, the least x1 in [-r, 0] inside the disk, draws that row's two spans and breaks, so the run drawn so far grows by row y1. |
| GlcdPrimitives.Glcd.PlotRowSpans | glcdPrimitives.c:341-342 | The two line calls draw the same span on rows y+y1 and y-y1. |
| GlcdPrimitives.Glcd.PrintCharXY | glcdPrimitives.c:102-124 | The framebuffer becomes CharImage. Each glyph-box cell gets fg on a set font bit, bg on a clear bit in opaque mode, or its old value in transparent mode. Cells outside the box are unchanged. |
| GlcdPrimitives.Glcd.PrintGlyphRow | glcdPrimitives.c:108-122 | One row of the glyph: bitIndex ends at the first bit of the next row, and the image is complete up to the end of this row. |
| GlcdPrimitives.Glcd.PlotGlyphCell | glcdPrimitives.c:110-120 | One pixel of the glyph: with bitIndex == PixelBit(tx, ty), the image grows by cell (x+tx, y+ty). |
| GlcdPrimitives.Glcd.PlotGlyphPixel | glcdPrimitives.c:110-117 | Tests font bit bitIndex MSB-first: set writes fg, clear writes bg unless transparent, and the cell is otherwise untouched. |
| GlcdPrimitives.Glcd.PrintStringXY | glcdPrimitives.c:166-173 | Each character before the first NUL is drawn at x + i * width, in order; the result is StringImage. |
| GlcdPrimitives.Glcd.PrintStringChar | glcdPrimitives.c:169-171 | One pass of the string loop: byte i is drawn at x + i * width, and the image becomes StringImage of the first i + 1 characters. |
| Screen.Index | glcdPrimitives.c:183 | The offset x + y * 256 of an on-screen point is inside the buffer and addresses that point. |
| Screen.CellAtIndex | glcdPrimitives.c:183 | Every buffer offset addresses exactly one on-screen cell, so addressing is a bijection. |
| Screen.Filled | glcdPrimitives.c:87-92 | Every cell of the filled buffer holds the colour. |
| Screen.WrittenInOrderIsPlotted | glcdPrimitives.c:183 | Carrying out a run of single-colour writes one by one, in order, gives Plotted: a cell holds c exactly when the run addresses it. |
| Screen.PlottedSnoc | glcdPrimitives.c:183 | One more pixel write at the end of a run updates exactly that pixel's cell. |
| Screen.PlottedPrefix | glcdPrimitives.c:209 | The step every drawing loop takes: writing point n extends the run written so far. |
| Screen.PlottedAppend | glcdPrimitives.c:263-266 | Two runs drawn one after the other are one run: routines made of line calls compose. |
| Screen.PlottedIdempotent | glcdPrimitives.c:183 | Writing a run twice has the same effect as writing it once. |
| Lines.RoundNearest | glcdPrimitives.c:221-249 | Each minor-axis offset is the nearest integer to k * minor / major, with halves rounded up. |
| Lines.RoundStep | glcdPrimitives.c:223-233 | With error = 2*minor - major at the start, the minor axis steps exactly when error >= 0. Error gains 2*minor, less 2*major on a step, and stays in [2*minor - 2*major, 2*minor). |
| Lines.RoundEnds | glcdPrimitives.c:221-249 | The run starts at offset 0 and ends at offset minor, so it starts and ends on the endpoints. |
| Lines.RoundRange | glcdPrimitives.c:221-249 | Every minor-axis offset lies between 0 and minor. |
| Lines.VerticalLinePoints | glcdPrimitives.c:206-212 | When dx == 0 the line is the column cells from min(y1, y2) to max(y1, y2). |
| Lines.HorizontalLinePoints | glcdPrimitives.c:213-219 | When dy == 0 the line is the row cells from min(x1, x2) to max(x1, x2). |
| Lines.LineEnds | glcdPrimitives.c:194-251 | The line has max(dx, dy) + 1 pixels and contains both endpoints. A Bresenham run begins at (x1, y1) and ends at (x2, y2). |
| Lines.LineInBox | glcdPrimitives.c:194-251 | Every pixel lies in the bounding box of the two endpoints. |
| Lines.LineOnScreen | glcdPrimitives.c:194-251 | A line between on-screen endpoints stays on screen. |
| Lines.LineConnected | glcdPrimitives.c:221-249 | Consecutive pixels differ, by at most 1 in each coordinate. |
| Lines.LineMinorStep | glcdPrimitives.c:224-248 | Along a run the major axis moves one pixel toward the end per iteration. The minor axis moves exactly on iterations whose error term is >= 0. |
| Lines.LineNearest | glcdPrimitives.c:221-249 | Pixel i is i steps along the major axis, and within 1/2 of the ideal segment along the minor one. |
| Lines.VerticalLineCells | glcdPrimitives.c:206-212 | A vertical line writes exactly the column cells between the endpoints, each once. |
| Lines.HorizontalLineCells | glcdPrimitives.c:213-219 | A horizontal line writes exactly the row cells between the endpoints, each once. |
| Lines.LineMajorCoverage | glcdPrimitives.c:224-234 | In a Bresenham run each major-axis coordinate between the endpoints is plotted exactly once. |
| Lines.LineTieStepsMinor | glcdPrimitives.c:223-233 | When dx == 2*dy the first error term is 0, and the second pixel has already stepped the minor axis. |
| Lines.LineDirectionMatters | glcdPrimitives.c:221-234 | Drawing is not symmetric: (0,0)-(2,1) writes (1,1) and not (1,0), and (2,1)-(0,0) writes (1,0) and not (1,1). |
| Lines.TieLineMiddle | glcdPrimitives.c:221-234 | A 2 x 1 line writes its middle column on the second endpoint's row only. |
| Shapes.RectCells | glcdPrimitives.c:261-267 | A point is on the outline iff it is on the border of the corners' bounding box. |
| Shapes.RectOnScreen | glcdPrimitives.c:261-267 | An outline with on-screen corners stays on screen. |
| Shapes.RectEffect | glcdPrimitives.c:261-267 | plotRect changes exactly the border cells to c; interior and exterior cells keep their values. |
| Shapes.FillRectRowsCells | glcdPrimitives.c:280-284 | After rows lo..hi, a point has been written iff it is in the box of columns x1..x2 and those rows. |
| Shapes.FillRectRowsCount | glcdPrimitives.c:280-284 | Rows lo..hi write (|x2-x1|+1) * (hi-lo+1) points, none twice. |
| Shapes.FillRectCells | glcdPrimitives.c:277-285 | Whatever the corner order, a point is written iff it is in the box, and the box has (|x2-x1|+1) * (|y2-y1|+1) distinct cells. |
| Shapes.FillRectRowsOnScreen | glcdPrimitives.c:280-284 | The rows of an on-screen box stay on screen. |
| Shapes.FillRectEffect | glcdPrimitives.c:277-285 | fillRect sets exactly the cells of the box to c and leaves all others unchanged. |
| Shapes.CircleStep | glcdPrimitives.c:307-315 | One loop step keeps the invariant: ddF_x = 2*x1+1, ddF_y = -2*y1, f is the midpoint decision value, and (x1, y1) stays in the ring. |
| Shapes.OctantsNear | glcdPrimitives.c:316-323 | The eight mirror images of a ring point are in the ring. |
| Shapes.CircleArcsNear | glcdPrimitives.c:307-324 | Every point the loop writes is in the ring. |
| Shapes.CircleNear | glcdPrimitives.c:295-325 | Every written offset (dx, dy) has abs(dx) <= r, abs(dy) <= r and r^2 - r <= dx^2 + dy^2 <= r^2 + r. |
| Shapes.CircleOnScreen | glcdPrimitives.c:295-325 | A circle whose bounding square is on screen stays on screen. |
| Shapes.QuadMirror | glcdPrimitives.c:316-323 | The four images of an offset are closed under both axis mirrors, and the diagonal mirror maps them onto the images of the swapped offset. |
| Shapes.OctantsSymmetric | glcdPrimitives.c:316-323 | The eight writes of one step are closed under the mirror images across both axes and the diagonal. |
| Shapes.CircleArcsSymmetric | glcdPrimitives.c:307-324 | The loop's writes are closed under the eight symmetries. |
| Shapes.CircleSymmetric | glcdPrimitives.c:295-325 | The whole outline is closed under (+-a, +-b) and (+-b, +-a) about the centre. |
| Shapes.CircleImages | glcdPrimitives.c:295-325 | Every written pixel comes with all eight of its mirror images. |
| Shapes.CircleRadiusZero | glcdPrimitives.c:303-307 | Radius 0 writes only the centre (four times), and the loop does not run. |
| Shapes.FirstInRow | glcdPrimitives.c:339-340 | The scan from `from` stops at the first x1 inside the disk, and no earlier x1 is inside. |
| Shapes.FirstX | glcdPrimitives.c:339-345 | For every row offset in [-r, 0], the least x1 in [-r, 0] with x1^2 + y1^2 <= r^2 exists, since x1 = 0 qualifies. |
| Shapes.FirstXUnique | glcdPrimitives.c:339-343 | Any x1 in [-r, 0] inside the disk with no earlier x1 inside is FirstX. |
| Shapes.RowSpansCells | glcdPrimitives.c:341-342 | The two lines cover rows y+y1 and y-y1 over the same columns, x+x1 to x-x1-1. |
| Shapes.FillCircleRowsCells | glcdPrimitives.c:338-346 | After the rows -r..y1-1, a point has been written iff its row offset is in that range and its column is in that row's span. |
| Shapes.FillCircleCells | glcdPrimitives.c:335-347 | A point is written iff its row is within r of the centre and its column is in the row's span. |
| Shapes.FillCircleMiddleRow | glcdPrimitives.c:335-347 | The centre row runs from x-r to x+r-1. Radius 0 writes the two pixels (x-1, y) and (x, y). |
| Shapes.FillCircleRowsOnScreen | glcdPrimitives.c:338-346 | The spans of a disk whose square is on screen (one column left of the centre for r = 0) stay on screen. |
| Shapes.FillCircleRowsStep | glcdPrimitives.c:338-346 | One pass of the outer loop extends the run drawn so far by the spans of row y1. |
| Shapes.FillCircleEffect | glcdPrimitives.c:335-347 | fillCircle sets exactly the span cells to c. Every other cell, including every row further than r from the centre, keeps its value. |
| Glyphs.FontBitUnpacked | glcdPrimitives.c:110 | FontBit, the test of font bit i, reads bit 8n + j of the font as bit j, MSB-first, of byte n. |
| Glyphs.PixelBitInBlob | glcdPrimitives.c:106-120 | Pixel (tx, ty) of a fitting glyph is bit start + ty*w + tx. It lies after the 4-byte header and inside the glyph's w*h bits of the blob. |
| Glyphs.PixelBitNextRow | glcdPrimitives.c:119-120 | Rows are not padded: the bit after a row's last pixel is the next row's first pixel. |
| Glyphs.Stride | glcdPrimitives.c:106 | A glyph's stride is w*h/8 bytes rounded down: 8 * stride <= w*h < 8 * stride + 8. |
| Glyphs.GlyphsConsecutive | glcdPrimitives.c:106 | GlyphStart, the first bit of a glyph, moves one stride, floor(w*h/8) bytes, from glyph c to glyph c+1. |
| Glyphs.GlyphRunsAdjacent | glcdPrimitives.c:106 | When w*h is a multiple of 8, a glyph's last pixel bit is immediately followed by the next glyph's first. |
| Glyphs.PixelBitAsWritten | glcdPrimitives.c:106-120 | The 16-bit bitIndex as the code computes it: always below 2^16, and equal to the true pixel bit reduced modulo 2^16. |
| Glyphs.PixelBitNoWrap | glcdPrimitives.c:106-120 | While a glyph ends below bit 2^16, the 16-bit bitIndex is exact. |
| Glyphs.PixelBitWraps | glcdPrimitives.c:106-120 | The 16-bit bitIndex wraps: for a 24x32 font from ' ', 'v' reads from inside the glyph of ' '. |
| Glyphs.CharImageStep | glcdPrimitives.c:110-118 | Drawing pixel (col, row) extends the partial image by exactly that cell, set to its PixelValue. |
| Glyphs.CharImageRowEnd | glcdPrimitives.c:107-123 | Finishing a row of the glyph is starting the next one. |
| Glyphs.CharImageStart | glcdPrimitives.c:104-107 | Before the first pixel the framebuffer is unchanged. |
| Glyphs.CharImageIdempotent | glcdPrimitives.c:102-124 | Drawing the same character twice in the same place is the same as drawing it once. |
| Glyphs.OpaqueCoversBox | glcdPrimitives.c:113-117 | In opaque mode every glyph-box cell is written, so the result depends only on the cells outside the box. |
| Glyphs.TransparentMatchesOpaque | glcdPrimitives.c:110-118 | Transparent and opaque drawing agree iff every background pixel of the glyph already holds the background colour. |
| Glyphs.CLength | glcdPrimitives.c:169 | The string loop stops at the first NUL: every earlier byte is non-zero. |
| Glyphs.CharXShift | glcdPrimitives.c:170 | Glyph m+n of a string sits where glyph n of the string's tail from m sits. |
| Glyphs.StringImageSnoc | glcdPrimitives.c:169-171 | Drawing one more character at x + n * width extends the string's image. |
| Glyphs.StringImageAppend | glcdPrimitives.c:166-173 | Drawing a + b is drawing a, then b from |a| glyph widths to the right. |
| Glyphs.StringImagePair | glcdPrimitives.c:166-173 | Two characters: the second glyph one width to the right, drawn over the first where they overlap. |

## Left out

- `glcd_printCharXY_TEST` (glcdPrimitives.c:135-157) is not modelled. Apart from its static loop counters, which exist only to show a data race between threads, it is `glcd_printCharXY`.
- Concurrency and shared global state under several callers are not modelled. There is no locking in the source.
- The pointer semantics of `glcd_setFrameBuffer` are not modelled. The class owns a single `fb` array of the panel's size; a null buffer and aliasing are left out.
- fonts.h and the font tables are not part of this model. A font is any byte sequence of length at least 4.
- The RGB565 meaning of colours is not modelled. A colour is an opaque 16-bit value, and `Screen.Black` .. `Screen.White` are the constants of glcdPrimitives.h:25-32.
- The source never checks the number of characters (`numchars`). The model stores it and never checks it either. A character past the last glyph is drawn from whatever bytes follow, as long as they lie inside the blob.
- GlcdPrimitives.Glcd.PlotLine, PlotRect, FillRect, PlotCircle, FillCircle, PrintCharXY and PrintStringXY require every pixel they write to be on screen, and every font bit they read to be in the blob. The source checks neither. Out-of-range writes and reads are undefined behaviour. Writes with x past 255 whose offset x + y * 256 still lies inside the buffer are defined in C and land on a following row, for example a string running off the right edge. The model excludes these row-wrapping writes as well.
- GlcdPrimitives.Glcd.FillCircle requires a radius of at least 0 (`Shapes.DiskOnScreen`). The C parameter is an `int16_t`, and a negative radius is a defined no-op there: the outer loop starts at y1 = -radius > 0 and never runs. The radius is documented as unsigned, so the model leaves negative radii out.
- GlcdPrimitives.Glcd.PlotCircle and FillCircle take the radius, `f`, `ddF_y` and the loop counters as mathematical integers. The source keeps `ddF_y` in a `uint16_t` set to `-2 * radius` and relies on its wrap-around when adding into the `int16_t` `f`. On a two's-complement target that wrap-around gives the same values as the integers of the model.
- Coordinates are mathematical integers rather than `uint16_t`. Wrap-around of `x + index * x_size` and of other coordinate sums cannot happen under the on-screen preconditions.
- The character argument and the font bytes are unsigned bytes (`Glyphs.Byte`, an integer from 0 to 255). A signed `char` below the font's first code is undefined behaviour in the source and is excluded by `Glyphs.GlyphFits`.
- GlcdPrimitives.Glcd.PrintCharXY uses the unbounded bit index `Glyphs.PixelBit` in place of the source's 16-bit one. This is the corrected behaviour; the wrap is recorded under Findings.
- Glyphs.Stride: when w*h is not a multiple of 8, the floor stride makes a glyph's last bits overlap the next glyph's first byte. The model reproduces that overlap.
- Screen.Plotted describes a run of writes by the set of cells it hits, not by their order. That is exact because every write of a run has the same colour; `Screen.WrittenInOrderIsPlotted` proves it equal to the in-order writes.
- The drawing methods name a separate helper method for some inner loops and blocks of writes: PlotXMajorRun, PlotRows, PlotAxisPoints, PlotOctants, FillRow, PrintGlyphRow, PlotGlyphCell, PrintStringChar and others. The C code has these inline.
- Line symmetry is not claimed, because the source does not have it (`Lines.LineDirectionMatters`).

## Findings

| source | as written | input that shows it | evidently intended | confidence | as-written member | corrected member |
|---|---|---|---|---|---|---|
| glcdPrimitives.c:106 | `bitIndex` is a `uint16_t`, so the bit index of a glyph's pixel is taken modulo 2^16. | A 24 x 32 font (96-byte glyphs) whose first code is 32, drawing 'v' (118): its first pixel is bit (4 + 86 * 96) * 8 = 66080. That wraps to 544, which lies inside the glyph of ' '. | The pixel bit is (4 + (c - offset) * stride) * 8 + ty * w + tx, without reduction. | not executed | Glyphs.PixelBitAsWritten, Glyphs.PixelBitWraps | Glyphs.PixelBitInBlob |
