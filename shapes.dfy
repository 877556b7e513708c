/// The pixels the shape routines of glcdPrimitives.c write: rectangles as
/// line calls, the midpoint circle with its eight-way mirroring, and the
/// filled circle's scan-and-break row spans.
module Shapes {
  import opened Screen
  import opened Lines

  predicate InBox(p: Point, x1: int, y1: int, x2: int, y2: int) {
    Min(x1, x2) <= p.x <= Max(x1, x2) && Min(y1, y2) <= p.y <= Max(y1, y2)
  }

  predicate OnBorder(p: Point, x1: int, y1: int, x2: int, y2: int) {
    InBox(p, x1, y1, x2, y2) && (p.x == x1 || p.x == x2 || p.y == y1 || p.y == y2)
  }

  // ---------------------------------------------------------------- rectangles

  /// glcd_plotRect: the four sides in the order they are drawn.
  function RectPoints(x1: int, y1: int, x2: int, y2: int): seq<Point> {
    LinePoints(x1, y1, x2, y1) + LinePoints(x2, y1, x2, y2) +
    LinePoints(x2, y2, x1, y2) + LinePoints(x1, y2, x1, y1)
  }

  /// The outline is exactly the border of the corners' bounding box.
  lemma RectCells(x1: int, y1: int, x2: int, y2: int, p: Point)
    ensures p in RectPoints(x1, y1, x2, y2) <==> OnBorder(p, x1, y1, x2, y2)
  {
    HorizontalLineCells(x1, x2, y1, p);
    VerticalLineCells(x2, y1, y2, p);
    HorizontalLineCells(x2, x1, y2, p);
    VerticalLineCells(x1, y2, y1, p);
  }

  /// A rectangle whose corners are on screen stays on screen.
  lemma RectOnScreen(x1: int, y1: int, x2: int, y2: int)
    requires OnScreen(Point(x1, y1)) && OnScreen(Point(x2, y2))
    ensures AllOnScreen(RectPoints(x1, y1, x2, y2))
  {
    LineOnScreen(x1, y1, x2, y1);
    LineOnScreen(x2, y1, x2, y2);
    LineOnScreen(x2, y2, x1, y2);
    LineOnScreen(x1, y2, x1, y1);
    OnScreenAppend(LinePoints(x1, y1, x2, y1), LinePoints(x2, y1, x2, y2));
    OnScreenAppend(LinePoints(x1, y1, x2, y1) + LinePoints(x2, y1, x2, y2), LinePoints(x2, y2, x1, y2));
    OnScreenAppend(LinePoints(x1, y1, x2, y1) + LinePoints(x2, y1, x2, y2) + LinePoints(x2, y2, x1, y2),
                   LinePoints(x1, y2, x1, y1));
  }

  /// Drawing the outline sets exactly the border cells of the box to c and
  /// leaves every other cell as it was.
  lemma RectEffect(s: seq<Color>, x1: int, y1: int, x2: int, y2: int, c: Color, k: int)
    requires |s| == Size && 0 <= k < Size && AllOnScreen(RectPoints(x1, y1, x2, y2))
    ensures Plotted(s, RectPoints(x1, y1, x2, y2), c)[k] ==
              if OnBorder(CellAt(k), x1, y1, x2, y2) then c else s[k]
  {
    RectCells(x1, y1, x2, y2, CellAt(k));
  }

  /// glcd_fillRect: one horizontal line from x1 to x2 on each row lo..hi,
  /// lowest row first.
  function FillRectRows(x1: int, x2: int, lo: int, hi: int): seq<Point>
    decreases hi - lo
  {
    if hi < lo then [] else FillRectRows(x1, x2, lo, hi - 1) + LinePoints(x1, hi, x2, hi)
  }

  function FillRectPoints(x1: int, y1: int, x2: int, y2: int): seq<Point> {
    FillRectRows(x1, x2, Min(y1, y2), Max(y1, y2))
  }

  /// The rows lo..hi cover exactly the box between the two columns.
  lemma {:induction false} FillRectRowsCells(x1: int, x2: int, lo: int, hi: int, p: Point)
    ensures p in FillRectRows(x1, x2, lo, hi) <==>
              Min(x1, x2) <= p.x <= Max(x1, x2) && lo <= p.y <= hi
    decreases hi - lo
  {
    if hi >= lo {
      FillRectRowsCells(x1, x2, lo, hi - 1, p);
      HorizontalLineCells(x1, x2, hi, p);
    }
  }

  /// The rows lo..hi hold (|x2-x1|+1) * (hi-lo+1) pixels, none twice.
  lemma {:induction false} FillRectRowsCount(x1: int, x2: int, lo: int, hi: int)
    requires lo <= hi + 1
    ensures |FillRectRows(x1, x2, lo, hi)| == (Dist(x1, x2) + 1) * (hi - lo + 1)
    ensures Distinct(FillRectRows(x1, x2, lo, hi))
    decreases hi - lo
  {
    if hi >= lo {
      var init, row := FillRectRows(x1, x2, lo, hi - 1), LinePoints(x1, hi, x2, hi);
      FillRectRowsCount(x1, x2, lo, hi - 1);
      LineEnds(x1, hi, x2, hi);
      forall i, j | 0 <= i < j < |init + row| ensures (init + row)[i] != (init + row)[j] {
        if j >= |init| {
          HorizontalLineCells(x1, x2, hi, (init + row)[j]);
          assert (init + row)[j] == row[j - |init|];
          if i < |init| {
            assert (init + row)[i] in init;
            FillRectRowsCells(x1, x2, lo, hi - 1, (init + row)[i]);
          } else {
            assert (init + row)[i] == row[i - |init|];
          }
        }
      }
    }
  }

  /// The filled rectangle is exactly the box, whatever the corner order,
  /// and it writes each of its (|x2-x1|+1) * (|y2-y1|+1) cells once.
  lemma FillRectCells(x1: int, y1: int, x2: int, y2: int, p: Point)
    ensures p in FillRectPoints(x1, y1, x2, y2) <==> InBox(p, x1, y1, x2, y2)
    ensures |FillRectPoints(x1, y1, x2, y2)| == (Dist(x1, x2) + 1) * (Dist(y1, y2) + 1)
    ensures Distinct(FillRectPoints(x1, y1, x2, y2))
  {
    FillRectRowsCells(x1, x2, Min(y1, y2), Max(y1, y2), p);
    FillRectRowsCount(x1, x2, Min(y1, y2), Max(y1, y2));
  }

  /// The rows lo..hi of a box whose columns and rows are on screen stay on screen.
  lemma FillRectRowsOnScreen(x1: int, x2: int, lo: int, hi: int)
    requires 0 <= x1 < Cols && 0 <= x2 < Cols && 0 <= lo && hi < Rows
    ensures AllOnScreen(FillRectRows(x1, x2, lo, hi))
  {
    var pts := FillRectRows(x1, x2, lo, hi);
    forall i | 0 <= i < |pts| ensures OnScreen(pts[i]) {
      assert pts[i] in pts;
      FillRectRowsCells(x1, x2, lo, hi, pts[i]);
    }
  }

  /// Filling sets exactly the cells of the box to c and leaves every other
  /// cell as it was.
  lemma FillRectEffect(s: seq<Color>, x1: int, y1: int, x2: int, y2: int, c: Color, k: int)
    requires |s| == Size && 0 <= k < Size && AllOnScreen(FillRectPoints(x1, y1, x2, y2))
    ensures Plotted(s, FillRectPoints(x1, y1, x2, y2), c)[k] ==
              if InBox(CellAt(k), x1, y1, x2, y2) then c else s[k]
  {
    FillRectCells(x1, y1, x2, y2, CellAt(k));
  }

  // ---------------------------------------------------------------- circle

  /// The four mirror images of offset (a,b) about (cx,cy) across the two
  /// axes: (a,b), (-a,b), (a,-b), (-a,-b).
  function Quad(cx: int, cy: int, a: int, b: int): seq<Point> {
    [Point(cx + a, cy + b), Point(cx - a, cy + b), Point(cx + a, cy - b), Point(cx - a, cy - b)]
  }

  /// The eight mirror images of octant offset (a,b) about (cx,cy), in the
  /// order glcd_plotCircle writes them: those of (a,b), then those of (b,a).
  function Octants(cx: int, cy: int, a: int, b: int): seq<Point> {
    Quad(cx, cy, a, b) + Quad(cx, cy, b, a)
  }

  /// One step of the circle loop from (f, ddF_x, ddF_y, x1, y1): when
  /// f >= 0, y1 steps down, ddF_y grows by 2 and is added to f; then x1 steps
  /// up, ddF_x grows by 2 and is added to f.
  function NextF(f: int, ddx: int, ddy: int): int {
    if f >= 0 then f + (ddy + 2) + (ddx + 2) else f + (ddx + 2)
  }

  function NextDdy(f: int, ddy: int): int {
    if f >= 0 then ddy + 2 else ddy
  }

  function NextB(f: int, b: int): int {
    if f >= 0 then b - 1 else b
  }

  /// The points the loop of glcd_plotCircle writes from the state
  /// (f, ddF_x, ddF_y, x1, y1) on: while x1 < y1, take one step and write
  /// the eight mirror images of the new (x1, y1).
  function CircleArcs(cx: int, cy: int, f: int, ddx: int, ddy: int, a: int, b: int): seq<Point>
    decreases b - a
  {
    if a < b then
      Octants(cx, cy, a + 1, NextB(f, b)) +
      CircleArcs(cx, cy, NextF(f, ddx, ddy), ddx + 2, NextDdy(f, ddy), a + 1, NextB(f, b))
    else []
  }

  /// glcd_plotCircle: the four axis points, then the loop from
  /// f = 1 - r, ddF_x = 1, ddF_y = -2r, x1 = 0, y1 = r.
  function CirclePoints(cx: int, cy: int, r: int): seq<Point> {
    AxisPoints(cx, cy, r) + CircleArcs(cx, cy, 1 - r, 1, -2 * r, 0, r)
  }

  /// The four points at distance r from the centre along the axes, in the
  /// order glcd_plotCircle writes them before its loop.
  function AxisPoints(cx: int, cy: int, r: int): seq<Point> {
    [Point(cx, cy + r), Point(cx, cy - r), Point(cx + r, cy), Point(cx - r, cy)]
  }

  /// The mirror images of p across the vertical and the horizontal line
  /// through (cx,cy), and across the diagonal through it.
  function MirrorX(p: Point, cx: int): Point { Point(2 * cx - p.x, p.y) }
  function MirrorY(p: Point, cy: int): Point { Point(p.x, 2 * cy - p.y) }
  function Swap(p: Point, cx: int, cy: int): Point { Point(cx + (p.y - cy), cy + (p.x - cx)) }

  /// The set of points is closed under the three reflections, hence under
  /// the eight symmetries of the square they generate.
  predicate EightWaySymmetric(pts: seq<Point>, cx: int, cy: int) {
    && (forall p {:trigger MirrorX(p, cx)} | p in pts :: MirrorX(p, cx) in pts)
    && (forall p {:trigger MirrorY(p, cy)} | p in pts :: MirrorY(p, cy) in pts)
    && (forall p {:trigger Swap(p, cx, cy)} | p in pts :: Swap(p, cx, cy) in pts)
  }

  /// The invariant of the circle loop: the increments track x1 and y1, f is
  /// the midpoint decision value at (x1+1, y1-1/2) scaled to integers, and
  /// (x1, y1) lies in the first octant's band around the ideal circle.
  ghost predicate CircleState(r: int, f: int, ddx: int, ddy: int, a: int, b: int) {
    && ddx == 2 * a + 1 && ddy == -2 * b
    && f == (a + 1) * (a + 1) + b * b - b - r * r
    && 0 <= a <= r && 0 <= b <= r
    && -b <= a * a + b * b - r * r <= Max(a, b)
  }

  /// Every point written lies in the ring r^2 - r <= dx^2 + dy^2 <= r^2 + r
  /// around the centre, inside the square of half-side r.
  ghost predicate NearCircle(p: Point, cx: int, cy: int, r: int) {
    && Dist(p.x, cx) <= r && Dist(p.y, cy) <= r
    && r * r - r <= (p.x - cx) * (p.x - cx) + (p.y - cy) * (p.y - cy) <= r * r + r
  }

  /// One iteration of the circle loop keeps its invariant.
  lemma CircleStep(r: int, f: int, ddx: int, ddy: int, a: int, b: int)
    requires CircleState(r, f, ddx, ddy, a, b) && a < b
    ensures CircleState(r, NextF(f, ddx, ddy), ddx + 2, NextDdy(f, ddy), a + 1, NextB(f, b))
  {
    var d := a * a + b * b - r * r;
    assert (a + 1) * (a + 1) == a * a + 2 * a + 1;
    assert (a + 2) * (a + 2) == a * a + 4 * a + 4;
    assert f == d + 2 * a + 1 - b;
    if f >= 0 {
      assert (b - 1) * (b - 1) == b * b - 2 * b + 1;
    }
  }

  lemma OctantsNear(cx: int, cy: int, r: int, a: int, b: int)
    requires 0 <= a <= r && 0 <= b <= r && r * r - r <= a * a + b * b <= r * r + r
    ensures forall p | p in Octants(cx, cy, a, b) :: NearCircle(p, cx, cy, r)
  {
    assert (-a) * (-a) == a * a && (-b) * (-b) == b * b;
  }

  /// Every point the loop writes is near the circle.
  lemma {:induction false} CircleArcsNear(cx: int, cy: int, r: int, f: int, ddx: int, ddy: int, a: int, b: int)
    requires CircleState(r, f, ddx, ddy, a, b)
    ensures forall p | p in CircleArcs(cx, cy, f, ddx, ddy, a, b) :: NearCircle(p, cx, cy, r)
    decreases b - a
  {
    if a < b {
      CircleStep(r, f, ddx, ddy, a, b);
      CircleArcsNear(cx, cy, r, NextF(f, ddx, ddy), ddx + 2, NextDdy(f, ddy), a + 1, NextB(f, b));
      OctantsNear(cx, cy, r, a + 1, NextB(f, b));
    }
  }

  /// The outline stays within r of the centre on both axes, and within the
  /// ring r^2 - r <= dx^2 + dy^2 <= r^2 + r.
  lemma CircleNear(cx: int, cy: int, r: int)
    requires r >= 0
    ensures forall p | p in CirclePoints(cx, cy, r) :: NearCircle(p, cx, cy, r)
  {
    assert CircleState(r, 1 - r, 1, -2 * r, 0, r);
    CircleArcsNear(cx, cy, r, 1 - r, 1, -2 * r, 0, r);
    OctantsNear(cx, cy, r, 0, r);
  }

  /// A circle whose square fits on screen stays on screen.
  lemma CircleOnScreen(cx: int, cy: int, r: int)
    requires 0 <= r <= cx && cx + r < Cols && r <= cy && cy + r < Rows
    ensures AllOnScreen(CirclePoints(cx, cy, r))
  {
    CircleNear(cx, cy, r);
    var pts := CirclePoints(cx, cy, r);
    forall i | 0 <= i < |pts| ensures OnScreen(pts[i]) {
      assert pts[i] in pts;
    }
  }

  /// The four images of an offset are closed under the two axis mirrors,
  /// and the diagonal mirror maps them onto the four images of the swapped
  /// offset.
  lemma QuadMirror(cx: int, cy: int, a: int, b: int)
    ensures forall p | p in Quad(cx, cy, a, b) ::
              MirrorX(p, cx) in Quad(cx, cy, a, b) && MirrorY(p, cy) in Quad(cx, cy, a, b) &&
              Swap(p, cx, cy) in Quad(cx, cy, b, a)
  {
    var q, t := Quad(cx, cy, a, b), Quad(cx, cy, b, a);
    assert MirrorX(q[0], cx) == q[1] && MirrorY(q[0], cy) == q[2] && Swap(q[0], cx, cy) == t[0];
    assert MirrorX(q[1], cx) == q[0] && MirrorY(q[1], cy) == q[3] && Swap(q[1], cx, cy) == t[2];
    assert MirrorX(q[2], cx) == q[3] && MirrorY(q[2], cy) == q[0] && Swap(q[2], cx, cy) == t[1];
    assert MirrorX(q[3], cx) == q[2] && MirrorY(q[3], cy) == q[1] && Swap(q[3], cx, cy) == t[3];
  }

  /// The eight images of one offset are closed under the symmetries.
  lemma OctantsSymmetric(cx: int, cy: int, a: int, b: int)
    ensures EightWaySymmetric(Octants(cx, cy, a, b), cx, cy)
  {
    QuadMirror(cx, cy, a, b);
    QuadMirror(cx, cy, b, a);
  }

  lemma SymmetricAppend(xs: seq<Point>, ys: seq<Point>, cx: int, cy: int)
    requires EightWaySymmetric(xs, cx, cy) && EightWaySymmetric(ys, cx, cy)
    ensures EightWaySymmetric(xs + ys, cx, cy)
  {
  }

  lemma OctantsPrepend(cx: int, cy: int, a: int, b: int, tail: seq<Point>)
    requires EightWaySymmetric(tail, cx, cy)
    ensures EightWaySymmetric(Octants(cx, cy, a, b) + tail, cx, cy)
  {
    OctantsSymmetric(cx, cy, a, b);
    SymmetricAppend(Octants(cx, cy, a, b), tail, cx, cy);
  }

  /// Each iteration's block of points is closed under the symmetries.
  lemma {:induction false} CircleArcsSymmetric(cx: int, cy: int, f: int, ddx: int, ddy: int, a: int, b: int)
    ensures EightWaySymmetric(CircleArcs(cx, cy, f, ddx, ddy, a, b), cx, cy)
    decreases b - a
  {
    if a < b {
      CircleArcsSymmetric(cx, cy, NextF(f, ddx, ddy), ddx + 2, NextDdy(f, ddy), a + 1, NextB(f, b));
      OctantsPrepend(cx, cy, a + 1, NextB(f, b),
                     CircleArcs(cx, cy, NextF(f, ddx, ddy), ddx + 2, NextDdy(f, ddy), a + 1, NextB(f, b)));
    } else {
      assert CircleArcs(cx, cy, f, ddx, ddy, a, b) == [];
    }
  }

  /// The outline is symmetric under the eight reflections about its centre.
  lemma CircleSymmetric(cx: int, cy: int, r: int)
    ensures EightWaySymmetric(CirclePoints(cx, cy, r), cx, cy)
  {
    var axis := AxisPoints(cx, cy, r);
    CircleArcsSymmetric(cx, cy, 1 - r, 1, -2 * r, 0, r);
    forall i | 0 <= i < 4
      ensures MirrorX(axis[i], cx) in axis && MirrorY(axis[i], cy) in axis && Swap(axis[i], cx, cy) in axis
    {
      assert MirrorX(axis[i], cx) == axis[[0, 1, 3, 2][i]];
      assert MirrorY(axis[i], cy) == axis[[1, 0, 2, 3][i]];
      assert Swap(axis[i], cx, cy) == axis[[2, 3, 0, 1][i]];
    }
    SymmetricAppend(axis, CircleArcs(cx, cy, 1 - r, 1, -2 * r, 0, r), cx, cy);
  }

  /// Every point of the outline comes with all eight of its images
  /// (+-a, +-b) and (+-b, +-a) about the centre.
  lemma CircleImages(cx: int, cy: int, r: int, p: Point)
    requires p in CirclePoints(cx, cy, r)
    ensures forall q | q in Octants(cx, cy, p.x - cx, p.y - cy) :: q in CirclePoints(cx, cy, r)
  {
    var pts := CirclePoints(cx, cy, r);
    CircleSymmetric(cx, cy, r);
    var mx := MirrorX(p, cx);
    var my := MirrorY(p, cy);
    var mxy := MirrorY(mx, cy);
    var o := Octants(cx, cy, p.x - cx, p.y - cy);
    assert o[0] == p && o[1] == mx && o[2] == my && o[3] == mxy;
    assert o[4] == Swap(p, cx, cy) && o[5] == Swap(my, cx, cy);
    assert o[6] == Swap(mx, cx, cy) && o[7] == Swap(mxy, cx, cy);
  }

  /// Radius 0 writes the centre only (four times).
  lemma CircleRadiusZero(cx: int, cy: int)
    ensures CirclePoints(cx, cy, 0) == [Point(cx, cy), Point(cx, cy), Point(cx, cy), Point(cx, cy)]
  {
  }

  // ---------------------------------------------------------------- filled circle

  /// The rows cy-r..cy+r and the columns cx-r..cx+r-1 the filled circle
  /// draws on lie on screen; radius 0 draws columns cx-1 and cx.
  predicate DiskOnScreen(cx: int, cy: int, r: int) {
    0 <= r && 1 <= cx && r <= cx && cx < Cols && cx + r <= Cols && r <= cy && cy + r < Rows
  }

  /// (x, y) passes the test of glcd_fillCircle's inner loop.
  predicate InDisk(x: int, y: int, r: int) {
    x * x + y * y <= r * r
  }

  lemma SquareMono(a: int, b: int)
    requires 0 <= a <= b
    ensures a * a <= b * b
  {
  }

  /// The inner loop's scan: the first x1 from `from` up to 0 that passes the
  /// disk test.  It always stops by 0, which passes whenever |y1| <= r.
  function FirstInRow(r: int, y1: int, from: int): (x1: int)
    requires from <= 0 && InDisk(0, y1, r)
    ensures from <= x1 <= 0 && InDisk(x1, y1, r)
    ensures forall x | from <= x < x1 :: !InDisk(x, y1, r)
    decreases -from
  {
    if InDisk(from, y1, r) then from else FirstInRow(r, y1, from + 1)
  }

  /// The least x1 in [-r, 0] with x1^2 + y1^2 <= r^2.
  function FirstX(r: int, y1: int): (x1: int)
    requires 0 <= r && -r <= y1 <= 0
    ensures -r <= x1 <= 0 && InDisk(x1, y1, r)
    ensures forall x | -r <= x < x1 :: !InDisk(x, y1, r)
  {
    SquareMono(-y1, r);
    FirstInRow(r, y1, -r)
  }

  /// FirstX is the only x1 in [-r, 0] inside the disk with nothing inside
  /// the disk before it: what the scan that stops at its first hit finds.
  lemma FirstXUnique(r: int, y1: int, x1: int)
    requires 0 <= r && -r <= y1 <= 0 && -r <= x1 <= 0
    requires InDisk(x1, y1, r) && forall x | -r <= x < x1 :: !InDisk(x, y1, r)
    ensures x1 == FirstX(r, y1)
  {
    var first := FirstX(r, y1);
    assert InDisk(first, y1, r);
  }

  /// The two lines glcd_fillCircle draws for row offset y1 once its scan
  /// has stopped at x1: from cx + x1 to cx + x1 + 2*(-x1) - 1 on rows
  /// cy + y1 and cy - y1.
  function RowSpans(cx: int, cy: int, y1: int, x1: int): seq<Point> {
    LinePoints(cx + x1, cy + y1, cx + x1 + 2 * (-x1) - 1, cy + y1) +
    LinePoints(cx + x1, cy - y1, cx + x1 + 2 * (-x1) - 1, cy - y1)
  }

  /// The spans of the rows -r .. y1 - 1, in the order they are drawn.
  function FillCircleRows(cx: int, cy: int, r: int, y1: int): seq<Point>
    requires 0 <= r && -r <= y1 <= 1
    decreases y1 + r
  {
    if y1 == -r then [] else FillCircleRows(cx, cy, r, y1 - 1) + RowSpans(cx, cy, y1 - 1, FirstX(r, y1 - 1))
  }

  /// glcd_fillCircle: the spans of the rows -r .. 0.
  function FillCirclePoints(cx: int, cy: int, r: int): seq<Point>
    requires 0 <= r
  {
    FillCircleRows(cx, cy, r, 1)
  }

  /// The span of row offset y1 runs from cx + x1 to cx - x1 - 1 (from cx - 1
  /// to cx when x1 = 0): one pixel short of the mirror image on the right.
  predicate InSpan(px: int, cx: int, x1: int) {
    Min(cx + x1, cx - x1 - 1) <= px <= Max(cx + x1, cx - x1 - 1)
  }

  /// The (non-positive) row offset y1 whose spans cover row py.
  function RowOffset(py: int, cy: int): int {
    -(Dist(py, cy) as int)
  }

  /// The two spans of row offset y1 cover rows cy + y1 and cy - y1, each
  /// over the columns of InSpan.
  lemma RowSpansCells(cx: int, cy: int, y1: int, x1: int, p: Point)
    requires y1 <= 0
    ensures p in RowSpans(cx, cy, y1, x1) <==> RowOffset(p.y, cy) == y1 && InSpan(p.x, cx, x1)
  {
    HorizontalLineCells(cx + x1, cx + x1 + 2 * (-x1) - 1, cy + y1, p);
    HorizontalLineCells(cx + x1, cx + x1 + 2 * (-x1) - 1, cy - y1, p);
  }

  /// After the rows -r .. y1 - 1, exactly the cells of those rows (mirrored
  /// about cy) that lie in their row's span have been written.
  lemma {:induction false} FillCircleRowsCells(cx: int, cy: int, r: int, y1: int, p: Point)
    requires 0 <= r && -r <= y1 <= 1
    ensures p in FillCircleRows(cx, cy, r, y1) <==>
              -r <= RowOffset(p.y, cy) < y1 && InSpan(p.x, cx, FirstX(r, RowOffset(p.y, cy)))
    decreases y1 + r
  {
    if y1 != -r {
      FillCircleRowsCells(cx, cy, r, y1 - 1, p);
      RowSpansCells(cx, cy, y1 - 1, FirstX(r, y1 - 1), p);
    }
  }

  /// The filled circle changes exactly the cells whose row is within r of cy
  /// and whose column is in that row's span; rows further away are untouched.
  lemma FillCircleCells(cx: int, cy: int, r: int, p: Point)
    requires 0 <= r
    ensures p in FillCirclePoints(cx, cy, r) <==>
              Dist(p.y, cy) <= r && InSpan(p.x, cx, FirstX(r, RowOffset(p.y, cy)))
  {
    FillCircleRowsCells(cx, cy, r, 1, p);
  }

  /// The middle row runs from cx - r to cx + r - 1, and radius 0 draws the
  /// two pixels (cx - 1, cy) and (cx, cy).
  lemma FillCircleMiddleRow(cx: int, cy: int, r: int, px: int)
    requires 0 <= r
    ensures Point(px, cy) in FillCirclePoints(cx, cy, r) <==>
              if r == 0 then cx - 1 <= px <= cx else cx - r <= px <= cx + r - 1
  {
    FillCircleCells(cx, cy, r, Point(px, cy));
    assert FirstX(r, 0) == -r;
  }

  /// Every row span of a circle whose square fits on screen (with one
  /// column to the left of the centre for radius 0) stays on screen.
  lemma FillCircleRowsOnScreen(cx: int, cy: int, r: int, y1: int)
    requires DiskOnScreen(cx, cy, r)
    requires -r <= y1 <= 1
    ensures AllOnScreen(FillCircleRows(cx, cy, r, y1))
  {
    var pts := FillCircleRows(cx, cy, r, y1);
    forall i | 0 <= i < |pts| ensures OnScreen(pts[i]) {
      assert pts[i] in pts;
      FillCircleRowsCells(cx, cy, r, y1, pts[i]);
      var x1 := FirstX(r, RowOffset(pts[i].y, cy));
      assert cx + x1 >= 0 && cx - x1 - 1 >= 0 && cx + x1 < Cols && cx - x1 - 1 < Cols;
    }
  }

  /// One pass of the row scan of the filled circle extends the run drawn so
  /// far by the spans of row y1, all on screen.
  lemma FillCircleRowsStep(s: seq<Color>, cx: int, cy: int, r: int, y1: int, c: Color)
    requires |s| == Size && DiskOnScreen(cx, cy, r) && -r <= y1 <= 0
    ensures AllOnScreen(FillCircleRows(cx, cy, r, y1)) && AllOnScreen(RowSpans(cx, cy, y1, FirstX(r, y1)))
    ensures AllOnScreen(FillCircleRows(cx, cy, r, y1 + 1))
    ensures Plotted(s, FillCircleRows(cx, cy, r, y1 + 1), c) ==
            Plotted(Plotted(s, FillCircleRows(cx, cy, r, y1), c), RowSpans(cx, cy, y1, FirstX(r, y1)), c)
  {
    var rows, span := FillCircleRows(cx, cy, r, y1), RowSpans(cx, cy, y1, FirstX(r, y1));
    FillCircleRowsOnScreen(cx, cy, r, y1);
    FillCircleRowsOnScreen(cx, cy, r, y1 + 1);
    assert FillCircleRows(cx, cy, r, y1 + 1) == rows + span;
    forall i | 0 <= i < |span| ensures OnScreen(span[i]) {
      assert span[i] == (rows + span)[|rows| + i];
    }
    PlottedAppend(s, rows, span, c);
  }

  /// Filling the circle sets exactly the cells of the row spans to c and
  /// leaves every other cell, in particular every row further than r from
  /// the centre, as it was.
  lemma FillCircleEffect(s: seq<Color>, cx: int, cy: int, r: int, c: Color, k: int)
    requires |s| == Size && 0 <= k < Size && 0 <= r && AllOnScreen(FillCirclePoints(cx, cy, r))
    ensures Plotted(s, FillCirclePoints(cx, cy, r), c)[k] ==
              if Dist(CellAt(k).y, cy) <= r && InSpan(CellAt(k).x, cx, FirstX(r, RowOffset(CellAt(k).y, cy)))
              then c else s[k]
  {
    FillCircleCells(cx, cy, r, CellAt(k));
  }
}
