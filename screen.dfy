/// The framebuffer geometry of the display: a row-major array of RGB565
/// cells, GLCDCOLS wide and GLCDROWS high, addressed as x + y * GLCDCOLS.
/// `Plotted` is the effect of a run of single-colour pixel writes on the
/// framebuffer contents; every drawing routine is specified through it.
module Screen {

  const Cols: nat := 256
  const Rows: nat := 320
  const Size: nat := Cols * Rows

  /// An RGB565 colour, treated as an opaque 16-bit value.
  type Color = c: int | 0 <= c < 0x1_0000

  const Black: Color := 0x0000
  const Blue: Color := 0x001F
  const Red: Color := 0xF800
  const Green: Color := 0x07E0
  const Cyan: Color := 0x07FF
  const Magenta: Color := 0xF81F
  const Yellow: Color := 0xFFE0
  const White: Color := 0xFFFF

  datatype Point = Point(x: int, y: int)

  predicate OnScreen(p: Point) {
    0 <= p.x < Cols && 0 <= p.y < Rows
  }

  predicate AllOnScreen(pts: seq<Point>) {
    forall i | 0 <= i < |pts| :: OnScreen(pts[i])
  }

  /// The cell a framebuffer offset addresses.
  function CellAt(k: int): Point {
    Point(k % Cols, k / Cols)
  }

  /// The framebuffer offset of an on-screen point; it addresses that point.
  function Index(p: Point): (k: nat)
    requires OnScreen(p)
    ensures k < Size
    ensures CellAt(k) == p
  {
    p.x + p.y * Cols
  }

  /// Every offset of the framebuffer addresses exactly one on-screen cell.
  lemma CellAtIndex(k: int)
    requires 0 <= k < Size
    ensures OnScreen(CellAt(k)) && Index(CellAt(k)) == k
  {
  }

  /// The framebuffer after writing colour `c` at every point of `pts`: as
  /// every write of a run has the same colour, a cell ends up `c` exactly
  /// when some point of the run addresses it, whatever the order.
  function Plotted(s: seq<Color>, pts: seq<Point>, c: Color): (r: seq<Color>)
    requires |s| == Size && AllOnScreen(pts)
    ensures |r| == Size
  {
    seq(Size, k requires 0 <= k < Size => if CellAt(k) in pts then c else s[k])
  }

  /// The framebuffer after the writes of `pts` carried out one by one, first
  /// to last, each storing `c` at the point's offset.
  function WrittenInOrder(s: seq<Color>, pts: seq<Point>, c: Color): (r: seq<Color>)
    requires |s| == Size && AllOnScreen(pts)
    ensures |r| == Size
    decreases |pts|
  {
    if pts == [] then s
    else WrittenInOrder(s, pts[..|pts| - 1], c)[Index(pts[|pts| - 1]) := c]
  }

  /// Writing a run point by point, in order, yields `Plotted`: a cell ends
  /// up `c` exactly when the run addresses it, and keeps its value otherwise.
  lemma {:induction false} WrittenInOrderIsPlotted(s: seq<Color>, pts: seq<Point>, c: Color)
    requires |s| == Size && AllOnScreen(pts)
    ensures WrittenInOrder(s, pts, c) == Plotted(s, pts, c)
    decreases |pts|
  {
    if pts != [] {
      var init, last := pts[..|pts| - 1], pts[|pts| - 1];
      assert pts == init + [last];
      WrittenInOrderIsPlotted(s, init, c);
      PlottedSnoc(s, init, last, c);
    }
  }

  lemma AppendAssoc(a: seq<Point>, b: seq<Point>, c: seq<Point>)
    ensures a + (b + c) == (a + b) + c
  {
  }

  lemma OnScreenAppend(a: seq<Point>, b: seq<Point>)
    requires AllOnScreen(a) && AllOnScreen(b)
    ensures AllOnScreen(a + b)
  {
    forall i | 0 <= i < |a + b| ensures OnScreen((a + b)[i]) {
      if i >= |a| { assert (a + b)[i] == b[i - |a|]; }
    }
  }

  /// Writing one more point at the end of a run.
  lemma PlottedSnoc(s: seq<Color>, pts: seq<Point>, p: Point, c: Color)
    requires |s| == Size && AllOnScreen(pts) && OnScreen(p)
    ensures AllOnScreen(pts + [p])
    ensures Plotted(s, pts + [p], c) == Plotted(s, pts, c)[Index(p) := c]
  {
    OnScreenAppend(pts, [p]);
    forall k | 0 <= k < Size
      ensures Plotted(s, pts + [p], c)[k] == Plotted(s, pts, c)[Index(p) := c][k]
    {
      CellAtIndex(k);
      assert CellAt(k) in pts + [p] <==> CellAt(k) in pts || CellAt(k) == p;
    }
  }

  /// Writing one more point of a run: the step every drawing loop takes.
  lemma PlottedPrefix(s: seq<Color>, pts: seq<Point>, n: int, c: Color)
    requires |s| == Size && AllOnScreen(pts) && 0 <= n < |pts|
    ensures AllOnScreen(pts[..n]) && AllOnScreen(pts[..n + 1])
    ensures Plotted(s, pts[..n + 1], c) == Plotted(s, pts[..n], c)[Index(pts[n]) := c]
  {
    assert pts[..n + 1] == pts[..n] + [pts[n]];
    PlottedSnoc(s, pts[..n], pts[n], c);
  }

  /// Two runs of writes one after the other are one run.
  lemma PlottedAppend(s: seq<Color>, a: seq<Point>, b: seq<Point>, c: Color)
    requires |s| == Size && AllOnScreen(a) && AllOnScreen(b)
    ensures AllOnScreen(a + b)
    ensures Plotted(s, a + b, c) == Plotted(Plotted(s, a, c), b, c)
  {
    OnScreenAppend(a, b);
    forall k | 0 <= k < Size
      ensures Plotted(s, a + b, c)[k] == Plotted(Plotted(s, a, c), b, c)[k]
    {
      assert CellAt(k) in a + b <==> CellAt(k) in a || CellAt(k) in b;
    }
  }

  /// Writing the same run twice is the same as writing it once.
  lemma PlottedIdempotent(s: seq<Color>, pts: seq<Point>, c: Color)
    requires |s| == Size && AllOnScreen(pts)
    ensures Plotted(Plotted(s, pts, c), pts, c) == Plotted(s, pts, c)
  {
    var once := Plotted(s, pts, c);
    forall k | 0 <= k < Size ensures Plotted(once, pts, c)[k] == once[k] {
    }
  }

  /// The framebuffer entirely set to `c`.
  function Filled(c: Color): (r: seq<Color>)
    ensures |r| == Size
    ensures forall k | 0 <= k < Size :: r[k] == c
  {
    seq(Size, _ => c)
  }

  /// No point occurs twice.
  predicate Distinct(pts: seq<Point>) {
    forall i, j | 0 <= i < j < |pts| :: pts[i] != pts[j]
  }

  function Min(a: int, b: int): int { if a <= b then a else b }
  function Max(a: int, b: int): int { if a <= b then b else a }
  function Dist(a: int, b: int): nat { if a <= b then b - a else a - b }
}
