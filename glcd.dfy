/// The rasteriser state of glcdPrimitives.c and the drawing routines that
/// write into its framebuffer.  The module-level globals of the C file
/// (current font, transparency flag, colours, framebuffer pointer) are the
/// fields of one `Glcd` object; each routine is a method that writes the
/// `fb` array in place, proved to leave it as the specification functions
/// of Screen, Lines, Shapes and Glyphs describe.
module GlcdPrimitives {
  import opened Screen
  import opened Lines
  import opened Shapes
  import opened Glyphs

  class Glcd {
    /// The framebuffer the routines draw into (glcd_setFrameBuffer).
    var fb: array<Color>
    /// The current font blob and the header fields glcd_setFont copies out of it.
    var font: seq<Byte>
    var xSize: nat
    var ySize: nat
    var offset: nat
    var numChars: nat
    /// Non-zero: glyph background pixels are left untouched.
    var transparentMode: Byte
    var foregroundColor: Color
    var backgroundColor: Color

    /// The framebuffer has the panel's size, and the font header fields are
    /// those of the current font (all zero before any font is set).
    ghost predicate Valid()
      reads this
    {
      && fb.Length == Size
      && (font == [] || |font| >= 4)
      && (xSize, ySize, offset, numChars) == HeaderOf(font)
    }

    /// The state before any setter runs, drawing into `buffer`.
    constructor (buffer: array<Color>)
      requires buffer.Length == Size
      ensures Valid() && fb == buffer
      ensures font == [] && transparentMode == 0
      ensures foregroundColor == White && backgroundColor == Black
    {
      fb := buffer;
      font := [];
      xSize, ySize, offset, numChars := 0, 0, 0, 0;
      transparentMode := 0;
      foregroundColor := White;
      backgroundColor := Black;
    }

    method SetFrameBuffer(buffer: array<Color>)
      requires Valid() && buffer.Length == Size
      modifies this
      ensures Valid() && fb == buffer
      ensures font == old(font) && transparentMode == old(transparentMode)
      ensures foregroundColor == old(foregroundColor) && backgroundColor == old(backgroundColor)
    {
      fb := buffer;
    }

    /// Select a font: its first four bytes are the glyph width, the glyph
    /// height, the first character code and the number of characters.
    method SetFont(f: seq<Byte>)
      requires Valid() && |f| >= 4
      modifies this
      ensures Valid() && font == f
      ensures xSize == f[0] && ySize == f[1]
      ensures offset == f[2] && numChars == f[3]
      ensures fb == old(fb) && transparentMode == old(transparentMode)
      ensures foregroundColor == old(foregroundColor) && backgroundColor == old(backgroundColor)
    {
      font := f;
      xSize := f[0];
      ySize := f[1];
      offset := f[2];
      numChars := f[3];
    }

    method SetForegroundColor(color: Color)
      requires Valid()
      modifies this
      ensures Valid() && foregroundColor == color
      ensures fb == old(fb) && font == old(font) && transparentMode == old(transparentMode)
      ensures backgroundColor == old(backgroundColor)
    {
      foregroundColor := color;
    }

    method SetBackgroundColor(color: Color)
      requires Valid()
      modifies this
      ensures Valid() && backgroundColor == color
      ensures fb == old(fb) && font == old(font) && transparentMode == old(transparentMode)
      ensures foregroundColor == old(foregroundColor)
    {
      backgroundColor := color;
    }

    /// The current font, as glcd_setFont recorded it.
    function CurrentFont(): Font
      reads this
    {
      Font(font, xSize, ySize, offset)
    }

    /// The current colours and transparency flag.
    function CurrentInk(): Ink
      reads this
    {
      Ink(foregroundColor, backgroundColor, transparentMode != 0)
    }

    /// Every cell of the framebuffer becomes `color`.
    method FillScreen(color: Color)
      requires Valid()
      modifies fb
      ensures fb[..] == Filled(color)
    {
      var p := 0;
      var row := 0;
      while row < Rows
        invariant 0 <= row <= Rows && p == row * Cols
        invariant forall k | 0 <= k < p :: fb[k] == color
      {
        var col := 0;
        while col < Cols
          invariant 0 <= col <= Cols && p == row * Cols + col
          invariant forall k | 0 <= k < p :: fb[k] == color
        {
          fb[p] := color;
          p := p + 1;
          col := col + 1;
        }
        row := row + 1;
      }
      assert fb[..] == Filled(color);
    }

    /// Exactly the cell at x + y * Cols becomes `color`.
    method PlotPixel(x: int, y: int, color: Color)
      requires Valid() && OnScreen(Point(x, y))
      modifies fb
      ensures fb[..] == old(fb[..])[Index(Point(x, y)) := color]
    {
      fb[x + y * Cols] := color;
    }

    /// The line's pixels, in the order LinePoints lists them, become `color`.
    method PlotLine(x1: int, y1: int, x2: int, y2: int, color: Color)
      requires Valid() && OnScreen(Point(x1, y1)) && OnScreen(Point(x2, y2))
      modifies fb
      ensures AllOnScreen(LinePoints(x1, y1, x2, y2))
      ensures fb[..] == Plotted(old(fb[..]), LinePoints(x1, y1, x2, y2), color)
    {
      LineOnScreen(x1, y1, x2, y2);
      var dx := if x2 >= x1 then x2 - x1 else x1 - x2;
      var dy := if y2 >= y1 then y2 - y1 else y1 - y2;
      var x, y := x1, y1;
      var addx := if x1 > x2 then -1 else 1;
      var addy := if y1 > y2 then -1 else 1;
      if dx == 0 {
        VerticalLinePoints(x1, y1, x2, y2);
        if addy > 0 {
          PlotVerticalRun(x, y1, y2, color);
        } else {
          PlotVerticalRun(x, y2, y1, color);
        }
      } else if dy == 0 {
        HorizontalLinePoints(x1, y1, x2, y2);
        if addx > 0 {
          PlotHorizontalRun(x1, x2, y, color);
        } else {
          PlotHorizontalRun(x2, x1, y, color);
        }
      } else if dx >= dy {
        PlotXMajorRun(x1, y1, x2, y2, dx, dy, addx, addy, color);
      } else {
        PlotYMajorRun(x1, y1, x2, y2, dx, dy, addx, addy, color);
      }
    }

    /// The vertical fast path of glcd_plotLine: the column cells from
    /// (x,lo) down to (x,hi), in that order.
    method PlotVerticalRun(x: int, lo: int, hi: int, color: Color)
      requires Valid() && OnScreen(Point(x, lo)) && OnScreen(Point(x, hi)) && lo <= hi
      modifies fb
      ensures AllOnScreen(seq(hi - lo + 1, k => Point(x, lo + k)))
      ensures fb[..] == Plotted(old(fb[..]), seq(hi - lo + 1, k => Point(x, lo + k)), color)
    {
      ghost var pts := seq(hi - lo + 1, k => Point(x, lo + k));
      ghost var s0: seq<Color> := fb[..];
      var i := lo;
      while i <= hi
        invariant lo <= i <= hi + 1
        invariant fb[..] == Plotted(s0, pts[..i - lo], color)
      {
        PlottedPrefix(s0, pts, i - lo, color);
        PlotPixel(x, i, color);
        i := i + 1;
      }
      assert pts[..hi + 1 - lo] == pts;
    }

    /// The horizontal fast path of glcd_plotLine: the row cells from
    /// (lo,y) rightwards to (hi,y), in that order.
    method PlotHorizontalRun(lo: int, hi: int, y: int, color: Color)
      requires Valid() && OnScreen(Point(lo, y)) && OnScreen(Point(hi, y)) && lo <= hi
      modifies fb
      ensures AllOnScreen(seq(hi - lo + 1, k => Point(lo + k, y)))
      ensures fb[..] == Plotted(old(fb[..]), seq(hi - lo + 1, k => Point(lo + k, y)), color)
    {
      ghost var pts := seq(hi - lo + 1, k => Point(lo + k, y));
      ghost var s0: seq<Color> := fb[..];
      var i := lo;
      while i <= hi
        invariant lo <= i <= hi + 1
        invariant fb[..] == Plotted(s0, pts[..i - lo], color)
      {
        PlottedPrefix(s0, pts, i - lo, color);
        PlotPixel(i, y, color);
        i := i + 1;
      }
      assert pts[..hi + 1 - lo] == pts;
    }

    /// The x-major Bresenham loop of glcd_plotLine: x moves one pixel per
    /// iteration, y moves when the doubled error term is non-negative.
    method PlotXMajorRun(x1: int, y1: int, x2: int, y2: int, dx: int, dy: int,
                         addx: int, addy: int, color: Color)
      requires Valid() && OnScreen(Point(x1, y1)) && OnScreen(Point(x2, y2))
      requires dx == Dist(x1, x2) && dy == Dist(y1, y2) && 0 < dy <= dx
      requires addx == (if x1 > x2 then -1 else 1) && addy == (if y1 > y2 then -1 else 1)
      modifies fb
      ensures AllOnScreen(LinePoints(x1, y1, x2, y2))
      ensures fb[..] == Plotted(old(fb[..]), LinePoints(x1, y1, x2, y2), color)
    {
      LineOnScreen(x1, y1, x2, y2);
      ghost var pts := LinePoints(x1, y1, x2, y2);
      ghost var s0: seq<Color> := fb[..];
      RoundEnds(dx, dy);
      var x, y := x1, y1;
      var error := dy * 2 - dx;
      var i := 0;
      while i <= dx
        invariant 0 <= i <= dx + 1
        invariant x == Toward(x1, x2, i) && y == Toward(y1, y2, Round(i, dx, dy))
        invariant error == ErrorTerm(i, dx, dy)
        invariant fb[..] == Plotted(s0, pts[..i], color)
      {
        PlottedPrefix(s0, pts, i, color);
        PlotPixel(x, y, color);
        RoundStep(i, dx, dy);
        if error < 0 {
          error := error + dy * 2;
          x := x + addx;
        } else {
          error := error + (dy - dx) * 2;
          x := x + addx;
          y := y + addy;
        }
        i := i + 1;
      }
      assert pts[..dx + 1] == pts;
    }

    /// The y-major Bresenham loop of glcd_plotLine: y moves one pixel per
    /// iteration, x moves when the doubled error term is non-negative.
    method PlotYMajorRun(x1: int, y1: int, x2: int, y2: int, dx: int, dy: int,
                         addx: int, addy: int, color: Color)
      requires Valid() && OnScreen(Point(x1, y1)) && OnScreen(Point(x2, y2))
      requires dx == Dist(x1, x2) && dy == Dist(y1, y2) && 0 < dx < dy
      requires addx == (if x1 > x2 then -1 else 1) && addy == (if y1 > y2 then -1 else 1)
      modifies fb
      ensures AllOnScreen(LinePoints(x1, y1, x2, y2))
      ensures fb[..] == Plotted(old(fb[..]), LinePoints(x1, y1, x2, y2), color)
    {
      LineOnScreen(x1, y1, x2, y2);
      ghost var pts := LinePoints(x1, y1, x2, y2);
      ghost var s0: seq<Color> := fb[..];
      RoundEnds(dy, dx);
      var x, y := x1, y1;
      var error := dx * 2 - dy;
      var i := 0;
      while i <= dy
        invariant 0 <= i <= dy + 1
        invariant y == Toward(y1, y2, i) && x == Toward(x1, x2, Round(i, dy, dx))
        invariant error == ErrorTerm(i, dy, dx)
        invariant fb[..] == Plotted(s0, pts[..i], color)
      {
        PlottedPrefix(s0, pts, i, color);
        PlotPixel(x, y, color);
        RoundStep(i, dy, dx);
        if error < 0 {
          error := error + dx * 2;
          y := y + addy;
        } else {
          error := error + (dx - dy) * 2;
          x := x + addx;
          y := y + addy;
        }
        i := i + 1;
      }
      assert pts[..dy + 1] == pts;
    }

    /// The four sides of the box, drawn as lines in the order of
    /// RectPoints, become `color`.
    method PlotRect(x1: int, y1: int, x2: int, y2: int, color: Color)
      requires Valid() && OnScreen(Point(x1, y1)) && OnScreen(Point(x2, y2))
      modifies fb
      ensures AllOnScreen(RectPoints(x1, y1, x2, y2))
      ensures fb[..] == Plotted(old(fb[..]), RectPoints(x1, y1, x2, y2), color)
    {
      ghost var s0: seq<Color> := fb[..];
      ghost var top, right := LinePoints(x1, y1, x2, y1), LinePoints(x2, y1, x2, y2);
      ghost var bottom, left := LinePoints(x2, y2, x1, y2), LinePoints(x1, y2, x1, y1);
      PlotLine(x1, y1, x2, y1, color);
      PlotLine(x2, y1, x2, y2, color);
      PlottedAppend(s0, top, right, color);
      PlotLine(x2, y2, x1, y2, color);
      PlottedAppend(s0, top + right, bottom, color);
      PlotLine(x1, y2, x1, y1, color);
      PlottedAppend(s0, top + right + bottom, left, color);
    }

    /// Every cell of the box between the corners becomes `color`, one
    /// horizontal line per row from the smaller row to the larger.
    method FillRect(x1: int, y1: int, x2: int, y2: int, color: Color)
      requires Valid() && OnScreen(Point(x1, y1)) && OnScreen(Point(x2, y2))
      modifies fb
      ensures AllOnScreen(FillRectPoints(x1, y1, x2, y2))
      ensures fb[..] == Plotted(old(fb[..]), FillRectPoints(x1, y1, x2, y2), color)
    {
      if y1 < y2 {
        PlotRows(x1, x2, y1, y2, color);
      } else {
        PlotRows(x1, x2, y2, y1, color);
      }
    }

    /// The row loop of glcd_fillRect: a horizontal line on each row lo..hi.
    method PlotRows(x1: int, x2: int, lo: int, hi: int, color: Color)
      requires Valid() && 0 <= x1 < Cols && 0 <= x2 < Cols && 0 <= lo <= hi < Rows
      modifies fb
      ensures AllOnScreen(FillRectRows(x1, x2, lo, hi))
      ensures fb[..] == Plotted(old(fb[..]), FillRectRows(x1, x2, lo, hi), color)
    {
      ghost var s0: seq<Color> := fb[..];
      var lines := lo;
      while lines <= hi
        invariant lo <= lines <= hi + 1
        invariant AllOnScreen(FillRectRows(x1, x2, lo, lines - 1))
        invariant fb[..] == Plotted(s0, FillRectRows(x1, x2, lo, lines - 1), color)
      {
        PlotLine(x1, lines, x2, lines, color);
        PlottedAppend(s0, FillRectRows(x1, x2, lo, lines - 1), LinePoints(x1, lines, x2, lines), color);
        lines := lines + 1;
      }
      FillRectRowsOnScreen(x1, x2, lo, hi);
    }

    /// The midpoint circle: the four axis points, then the eight mirrored
    /// pixels of each step of the decision loop, in the order of CirclePoints.
    method PlotCircle(cx: int, cy: int, r: int, color: Color)
      requires Valid() && 0 <= r <= cx && cx + r < Cols && r <= cy && cy + r < Rows
      modifies fb
      ensures AllOnScreen(CirclePoints(cx, cy, r))
      ensures fb[..] == Plotted(old(fb[..]), CirclePoints(cx, cy, r), color)
    {
      ghost var s0: seq<Color> := fb[..];
      var f := 1 - r;
      var ddF_x := 1;
      var ddF_y := -2 * r;
      var x1 := 0;
      var y1 := r;
      PlotAxisPoints(cx, cy, r, color);
      ghost var done: seq<Point> := AxisPoints(cx, cy, r);
      assert CirclePoints(cx, cy, r) == done + CircleArcs(cx, cy, f, ddF_x, ddF_y, x1, y1);
      while x1 < y1
        invariant CircleState(r, f, ddF_x, ddF_y, x1, y1)
        invariant AllOnScreen(done)
        invariant CirclePoints(cx, cy, r) == done + CircleArcs(cx, cy, f, ddF_x, ddF_y, x1, y1)
        invariant fb[..] == Plotted(s0, done, color)
        decreases y1 - x1
      {
        CircleStep(r, f, ddF_x, ddF_y, x1, y1);
        ghost var arcs := CircleArcs(cx, cy, f, ddF_x, ddF_y, x1, y1);
        ghost var f', ddy', a', b' := NextF(f, ddF_x, ddF_y), NextDdy(f, ddF_y), x1 + 1, NextB(f, y1);
        ghost var next := CircleArcs(cx, cy, f', ddF_x + 2, ddy', a', b');
        assert arcs == Octants(cx, cy, a', b') + next;
        if f >= 0 {
          y1 := y1 - 1;
          ddF_y := ddF_y + 2;
          f := f + ddF_y;
        }
        x1 := x1 + 1;
        ddF_x := ddF_x + 2;
        f := f + ddF_x;
        assert f == f' && ddF_y == ddy' && x1 == a' && y1 == b';
        PlotOctants(cx, cy, x1, y1, color);
        PlottedAppend(s0, done, Octants(cx, cy, x1, y1), color);
        AppendAssoc(done, Octants(cx, cy, x1, y1), next);
        done := done + Octants(cx, cy, x1, y1);
      }
    }

    /// The four pixel writes glcd_plotCircle makes before its loop: the
    /// points at distance r from the centre along the two axes.
    method PlotAxisPoints(cx: int, cy: int, r: int, color: Color)
      requires Valid() && 0 <= r <= cx && cx + r < Cols && r <= cy && cy + r < Rows
      modifies fb
      ensures AllOnScreen(AxisPoints(cx, cy, r))
      ensures fb[..] == Plotted(old(fb[..]), AxisPoints(cx, cy, r), color)
    {
      ghost var s0: seq<Color> := fb[..];
      ghost var w: seq<Point> := [];
      assert fb[..] == Plotted(s0, w, color);
      PlottedSnoc(s0, w, Point(cx, cy + r), color);
      PlotPixel(cx, cy + r, color);
      w := w + [Point(cx, cy + r)];
      assert fb[..] == Plotted(s0, w, color);
      PlottedSnoc(s0, w, Point(cx, cy - r), color);
      PlotPixel(cx, cy - r, color);
      w := w + [Point(cx, cy - r)];
      assert fb[..] == Plotted(s0, w, color);
      PlottedSnoc(s0, w, Point(cx + r, cy), color);
      PlotPixel(cx + r, cy, color);
      w := w + [Point(cx + r, cy)];
      assert fb[..] == Plotted(s0, w, color);
      PlottedSnoc(s0, w, Point(cx - r, cy), color);
      PlotPixel(cx - r, cy, color);
      w := w + [Point(cx - r, cy)];
      assert fb[..] == Plotted(s0, w, color);
      assert w == AxisPoints(cx, cy, r);
    }

    /// The eight pixel writes of one step of glcd_plotCircle.
    method PlotOctants(cx: int, cy: int, a: int, b: int, color: Color)
      requires Valid() && 0 <= a <= cx && cx + a < Cols && 0 <= b <= cy && cy + b < Rows
      requires b <= cx && cx + b < Cols && a <= cy && cy + a < Rows
      modifies fb
      ensures AllOnScreen(Octants(cx, cy, a, b))
      ensures fb[..] == Plotted(old(fb[..]), Octants(cx, cy, a, b), color)
    {
      ghost var s0: seq<Color> := fb[..];
      PlotQuad(cx, cy, a, b, color);
      ghost var s1: seq<Color> := fb[..];
      PlotQuad(cx, cy, b, a, color);
      PlottedAppend(s0, Quad(cx, cy, a, b), Quad(cx, cy, b, a), color);
      assert s1 == Plotted(s0, Quad(cx, cy, a, b), color);
    }

    /// Four of the eight pixel writes of a step of glcd_plotCircle: offset
    /// (a,b) and its mirror images across the two axes.
    method PlotQuad(cx: int, cy: int, a: int, b: int, color: Color)
      requires Valid() && 0 <= a <= cx && cx + a < Cols && 0 <= b <= cy && cy + b < Rows
      modifies fb
      ensures AllOnScreen(Quad(cx, cy, a, b))
      ensures fb[..] == Plotted(old(fb[..]), Quad(cx, cy, a, b), color)
    {
      ghost var s0: seq<Color> := fb[..];
      ghost var w: seq<Point> := [];
      assert fb[..] == Plotted(s0, w, color);
      PlottedSnoc(s0, w, Point(cx + a, cy + b), color);
      PlotPixel(cx + a, cy + b, color);
      w := w + [Point(cx + a, cy + b)];
      assert fb[..] == Plotted(s0, w, color);
      PlottedSnoc(s0, w, Point(cx - a, cy + b), color);
      PlotPixel(cx - a, cy + b, color);
      w := w + [Point(cx - a, cy + b)];
      assert fb[..] == Plotted(s0, w, color);
      PlottedSnoc(s0, w, Point(cx + a, cy - b), color);
      PlotPixel(cx + a, cy - b, color);
      w := w + [Point(cx + a, cy - b)];
      assert fb[..] == Plotted(s0, w, color);
      PlottedSnoc(s0, w, Point(cx - a, cy - b), color);
      PlotPixel(cx - a, cy - b, color);
      w := w + [Point(cx - a, cy - b)];
      assert fb[..] == Plotted(s0, w, color);
      assert w == Quad(cx, cy, a, b);
    }

    /// The filled circle: one pass of the row scan for each row offset y1
    /// from -r to 0.
    method FillCircle(cx: int, cy: int, r: int, color: Color)
      requires Valid() && DiskOnScreen(cx, cy, r)
      modifies fb
      ensures AllOnScreen(FillCirclePoints(cx, cy, r))
      ensures fb[..] == Plotted(old(fb[..]), FillCirclePoints(cx, cy, r), color)
    {
      ghost var s0: seq<Color> := fb[..];
      var y1 := -r;
      while y1 <= 0
        invariant -r <= y1 <= 1
        invariant AllOnScreen(FillCircleRows(cx, cy, r, y1))
        invariant fb[..] == Plotted(s0, FillCircleRows(cx, cy, r, y1), color)
      {
        FillRow(cx, cy, r, y1, color, s0);
        y1 := y1 + 1;
      }
    }

    /// One pass of the outer loop of glcd_fillCircle: the inner loop scans x1
    /// up from -r to the first point of row y1 inside the disk, draws that
    /// row's two spans and stops, so the rows drawn so far grow by row y1.
    method FillRow(cx: int, cy: int, r: int, y1: int, color: Color, ghost s0: seq<Color>)
      requires Valid() && DiskOnScreen(cx, cy, r) && -r <= y1 <= 0 && |s0| == Size
      requires AllOnScreen(FillCircleRows(cx, cy, r, y1))
      requires fb[..] == Plotted(s0, FillCircleRows(cx, cy, r, y1), color)
      modifies fb
      ensures AllOnScreen(FillCircleRows(cx, cy, r, y1 + 1))
      ensures fb[..] == Plotted(s0, FillCircleRows(cx, cy, r, y1 + 1), color)
    {
      FillCircleRowsStep(s0, cx, cy, r, y1, color);
      SquareMono(-y1, r);
      var x1 := -r;
      while x1 <= 0
        invariant -r <= x1 <= 0
        invariant forall x | -r <= x < x1 :: !InDisk(x, y1, r)
        invariant fb[..] == old(fb[..])
      {
        if x1 * x1 + y1 * y1 <= r * r {
          FirstXUnique(r, y1, x1);
          PlotRowSpans(cx, cy, y1, x1, color);
          return;
        }
        x1 := x1 + 1;
      }
    }

    /// The two glcd_plotLine calls of one row of glcd_fillCircle.
    method PlotRowSpans(cx: int, cy: int, y1: int, x1: int, color: Color)
      requires Valid() && 0 <= cx + x1 && 0 <= cx - x1 - 1 < Cols && cx + x1 < Cols
      requires 0 <= cy + y1 && cy - y1 < Rows && y1 <= 0
      modifies fb
      ensures AllOnScreen(RowSpans(cx, cy, y1, x1))
      ensures fb[..] == Plotted(old(fb[..]), RowSpans(cx, cy, y1, x1), color)
    {
      ghost var s0: seq<Color> := fb[..];
      ghost var upper := LinePoints(cx + x1, cy + y1, cx + x1 + 2 * (-x1) - 1, cy + y1);
      ghost var lower := LinePoints(cx + x1, cy - y1, cx + x1 + 2 * (-x1) - 1, cy - y1);
      PlotLine(cx + x1, cy + y1, cx + x1 + 2 * (-x1) - 1, cy + y1, color);
      ghost var s1: seq<Color> := fb[..];
      PlotLine(cx + x1, cy - y1, cx + x1 + 2 * (-x1) - 1, cy - y1, color);
      PlottedAppend(s0, upper, lower, color);
      assert s1 == Plotted(s0, upper, color);
      assert fb[..] == Plotted(s1, lower, color);
      assert RowSpans(cx, cy, y1, x1) == upper + lower;
    }

    /// Character c's glyph, drawn with its top left corner at (x, y): row by
    /// row, reading one font bit per pixel, foreground on a set bit and
    /// background (unless transparent) on a clear one.
    method PrintCharXY(x: int, y: int, c: Byte)
      requires Valid() && GlyphFits(CurrentFont(), c) && GlyphOnScreen(CurrentFont(), x, y)
      modifies fb
      ensures fb[..] == CharImage(old(fb[..]), CurrentFont(), CurrentInk(), x, y, c)
    {
      ghost var s0: seq<Color> := fb[..];
      ghost var f, ink := CurrentFont(), CurrentInk();
      var fbY := y;
      var bitIndex := (4 + (c - offset) * ((xSize * ySize) / 8)) * 8;
      assert bitIndex == PixelBit(f, c, 0, 0);
      CharImageStart(s0, f, ink, x, y, c);
      var tempY := 0;
      while tempY < ySize
        invariant f == CurrentFont() && ink == CurrentInk()
        invariant 0 <= tempY <= ySize && fbY == y + tempY
        invariant bitIndex == PixelBit(f, c, 0, tempY)
        invariant fb[..] == CharImageUpTo(s0, f, ink, x, y, c, tempY, 0)
      {
        bitIndex := PrintGlyphRow(x, fbY, c, tempY, bitIndex, f, ink, y, s0);
        fbY := fbY + 1;
        tempY := tempY + 1;
      }
    }

    /// The inner loop of glcd_printCharXY: row `tempY` of the glyph drawn
    /// at (x, y), on screen row fbY, reading the bits from bitIndex on;
    /// returns the index of the next row's first bit.
    method PrintGlyphRow(x: int, fbY: int, c: Byte, tempY: int, bitIndex: int,
                         ghost f: Font, ghost ink: Ink, ghost y: int, ghost s0: seq<Color>)
        returns (next: int)
      requires Valid() && f == CurrentFont() && ink == CurrentInk()
      requires GlyphFits(f, c) && |s0| == Size
      requires GlyphOnScreen(f, x, y) && 0 <= tempY < f.height && fbY == y + tempY
      requires bitIndex == PixelBit(f, c, 0, tempY)
      requires fb[..] == CharImageUpTo(s0, f, ink, x, y, c, tempY, 0)
      modifies fb
      ensures next == PixelBit(f, c, 0, tempY + 1)
      ensures fb[..] == CharImageUpTo(s0, f, ink, x, y, c, tempY + 1, 0)
    {
      next := bitIndex;
      var fbX := x;
      var tempX := 0;
      while tempX < xSize
        invariant f == CurrentFont() && ink == CurrentInk()
        invariant 0 <= tempX <= xSize && fbX == x + tempX
        invariant next == PixelBit(f, c, tempX, tempY)
        invariant fb[..] == CharImageUpTo(s0, f, ink, x, y, c, tempY, tempX)
      {
        PlotGlyphCell(fbX, fbY, next, c, tempX, tempY, x, y, f, ink, s0);
        fbX := fbX + 1;
        next := next + 1;
        tempX := tempX + 1;
      }
      CharImageRowEnd(s0, f, ink, x, y, c, tempY);
      PixelBitNextRow(f, c, tempY);
    }

    /// One iteration of the inner loop of glcd_printCharXY: glyph pixel
    /// (tx, ty) of a glyph drawn at (x, y), read from font bit bitIndex, is
    /// drawn at (fbX, fbY).
    method PlotGlyphCell(fbX: int, fbY: int, bitIndex: int, ghost c: Byte, ghost tx: int, ghost ty: int,
                         ghost x: int, ghost y: int, ghost f: Font, ghost ink: Ink, ghost s0: seq<Color>)
      requires Valid() && f == CurrentFont() && ink == CurrentInk()
      requires GlyphFits(f, c) && |s0| == Size
      requires GlyphOnScreen(f, x, y) && 0 <= tx < f.width && 0 <= ty < f.height
      requires fbX == x + tx && fbY == y + ty && bitIndex == PixelBit(f, c, tx, ty)
      requires fb[..] == CharImageUpTo(s0, f, ink, x, y, c, ty, tx)
      modifies fb
      ensures fb[..] == CharImageUpTo(s0, f, ink, x, y, c, ty, tx + 1)
    {
      PixelBitInBlob(f, c, tx, ty);
      CharImageStep(s0, f, ink, x, y, c, ty, tx);
      assert fb[Index(Point(fbX, fbY))] == s0[Index(Point(fbX, fbY))];
      PlotGlyphPixel(fbX, fbY, bitIndex);
    }

    /// The body of the inner loop of glcd_printCharXY: the pixel at
    /// (fbX, fbY) shows font bit bitIndex.
    method PlotGlyphPixel(fbX: int, fbY: int, bitIndex: int)
      requires Valid() && OnScreen(Point(fbX, fbY)) && 0 <= bitIndex < 8 * |font|
      modifies fb
      ensures fb[..] == old(fb[..])[Index(Point(fbX, fbY)) :=
                if FontBit(font, bitIndex) then foregroundColor
                else if transparentMode != 0 then old(fb[Index(Point(fbX, fbY))])
                else backgroundColor]
    {
      if FontBit(font, bitIndex) {
        fb[fbX + fbY * Cols] := foregroundColor;
      } else if transparentMode == 0 {
        fb[fbX + fbY * Cols] := backgroundColor;
      }
    }

    /// The characters of a NUL-terminated string, each glyph one glyph
    /// width to the right of the previous one.
    method PrintStringXY(x: int, y: int, text: seq<Byte>)
      requires Valid() && 0 in text && StringFits(CurrentFont(), x, y, text[..CLength(text)])
      modifies fb
      ensures fb[..] == StringImage(old(fb[..]), CurrentFont(), CurrentInk(), x, y, text[..CLength(text)])
    {
      ghost var s0: seq<Color> := fb[..];
      ghost var f, ink := CurrentFont(), CurrentInk();
      ghost var chars := text[..CLength(text)];
      var index := 0;
      while text[index] != 0
        invariant f == CurrentFont() && ink == CurrentInk()
        invariant 0 <= index <= CLength(text)
        invariant StringFits(f, x, y, chars[..index])
        invariant fb[..] == StringImage(s0, f, ink, x, y, chars[..index])
        decreases CLength(text) - index
      {
        PrintStringChar(x, y, text, index, f, ink, chars, s0);
        index := index + 1;
      }
      assert chars[..index] == chars;
    }

    /// One pass of the loop of glcd_printStringXY: character `index` of the
    /// string, drawn `index` glyph widths to the right of x.
    method PrintStringChar(x: int, y: int, text: seq<Byte>, index: int,
                           ghost f: Font, ghost ink: Ink, ghost chars: seq<Byte>, ghost s0: seq<Color>)
      requires Valid() && f == CurrentFont() && ink == CurrentInk()
      requires |s0| == Size && StringFits(f, x, y, chars) && 0 <= index < |chars| <= |text|
      requires chars == text[..|chars|] && StringFits(f, x, y, chars[..index])
      requires fb[..] == StringImage(s0, f, ink, x, y, chars[..index])
      modifies fb
      ensures StringFits(f, x, y, chars[..index + 1])
      ensures fb[..] == StringImage(s0, f, ink, x, y, chars[..index + 1])
    {
      StringImageSnoc(s0, f, ink, x, y, chars, index);
      ghost var before: seq<Color> := fb[..];
      ghost var cx := CharX(f, x, index);
      assert chars[index] == text[index] && x + index * xSize == cx;
      PrintCharXY(x + index * xSize, y, text[index]);
      assert fb[..] == CharImage(before, f, ink, cx, y, text[index]);
    }
  }
}
