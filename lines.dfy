/// The pixels glcd_plotLine writes, in the order it writes them.
///
/// The two Bresenham loops step the major axis on every iteration and the
/// minor axis when the doubled error term is non-negative.  The pixel the
/// k-th iteration writes is described here in closed form: its minor-axis
/// offset is `Round(k, major, minor)`, k * minor / major rounded to the
/// nearest integer with halves rounded up.  `RoundStep` shows that this is
/// exactly what the error-term update of the loops computes.
module Lines {
  import opened Screen

  /// The minor-axis offset of the k-th pixel of a run whose axes move by
  /// `major` and `minor` pixels.
  function Round(k: int, major: int, minor: int): int
    requires major > 0
  {
    (2 * minor * k + major) / (2 * major)
  }

  /// The doubled error term the loop holds when it has written its k-th pixel.
  function ErrorTerm(k: int, major: int, minor: int): int
    requires major > 0
  {
    2 * minor * (k + 1) - major - 2 * major * Round(k, major, minor)
  }

  lemma MulMono(a: int, b: int, c: int)
    requires a <= b && c >= 0
    ensures a * c <= b * c
  {
  }

  /// Integer division is determined by the quotient's bracket.
  lemma DivUnique(m: int, d: int, q: int)
    requires d > 0 && d * q <= m < d * q + d
    ensures m / d == q
  {
    var q0, r0 := m / d, m % d;
    assert m == d * q0 + r0 && 0 <= r0 < d;
    if q0 > q {
      MulMono(q + 1, q0, d);
    } else if q0 < q {
      MulMono(q0 + 1, q, d);
    }
  }

  /// `Round` is the nearest integer to k * minor / major, halves rounded up.
  lemma RoundNearest(k: int, major: int, minor: int)
    requires major > 0
    ensures major * (2 * Round(k, major, minor) - 1) <= 2 * minor * k
    ensures 2 * minor * k < major * (2 * Round(k, major, minor) + 1)
  {
    var n, d := 2 * minor * k + major, 2 * major;
    var q := n / d;
    assert n == d * q + n % d;
  }

  /// Adding m <= d to n carries into the quotient by d exactly when the
  /// remainder reaches d.
  lemma DivStep(n: int, d: int, m: int)
    requires d > 0 && 0 <= m <= d
    ensures (n + m) / d == if n % d + m >= d then n / d + 1 else n / d
  {
    var q, r := n / d, n % d;
    assert n == d * q + r;
    if r + m >= d {
      DivUnique(n + m, d, q + 1);
    } else {
      DivUnique(n + m, d, q);
    }
  }

  /// One iteration of the loop: the error term stays in its window, the
  /// minor offset advances exactly when the error term is non-negative, and
  /// the error term is updated by 2*minor, less 2*major when it advanced.
  lemma RoundStep(k: int, major: int, minor: int)
    requires 0 <= minor <= major && 0 < major
    ensures 2 * minor - 2 * major <= ErrorTerm(k, major, minor) < 2 * minor
    ensures Round(k + 1, major, minor) ==
              if ErrorTerm(k, major, minor) >= 0 then Round(k, major, minor) + 1
              else Round(k, major, minor)
    ensures ErrorTerm(k + 1, major, minor) ==
              ErrorTerm(k, major, minor) + 2 * minor
              - (if ErrorTerm(k, major, minor) >= 0 then 2 * major else 0)
  {
    var n, d, m := 2 * minor * k + major, 2 * major, 2 * minor;
    var q, rem := n / d, n % d;
    assert n == d * q + rem && 0 <= rem < d;
    assert 2 * minor * (k + 1) + major == n + m;
    assert 2 * minor * (k + 2) + major == n + 2 * m;
    assert ErrorTerm(k, major, minor) == rem + m - d;
    DivStep(n, d, m);
    var q' := (n + m) / d;
    assert ErrorTerm(k + 1, major, minor) == n + 2 * m - d - d * q';
  }

  /// The run starts on the first endpoint and ends on the second.
  lemma RoundEnds(major: int, minor: int)
    requires 0 < major
    ensures Round(0, major, minor) == 0
    ensures Round(major, major, minor) == minor
  {
    DivUnique(major, 2 * major, 0);
    DivUnique(2 * minor * major + major, 2 * major, minor);
  }

  /// Every minor offset lies between the two endpoints.
  lemma RoundRange(k: int, major: int, minor: int)
    requires 0 <= minor <= major && 0 < major && 0 <= k <= major
    ensures 0 <= Round(k, major, minor) <= minor
  {
    var q := Round(k, major, minor);
    RoundNearest(k, major, minor);
    MulMono(k, major, 2 * minor);
    if q > minor {
      MulMono(2 * minor + 1, 2 * q - 1, major);
    } else if q < 0 {
      MulMono(2 * q + 1, -1, major);
    }
  }

  /// One step from `from` toward `to`, k times.
  function Toward(from: int, to: int, k: int): int {
    if from <= to then from + k else from - k
  }

  /// The k-th pixel glcd_plotLine writes from (x1,y1) to (x2,y2): a
  /// vertical run goes from the lower y up, a horizontal run from the lower
  /// x rightwards, and a Bresenham run from (x1,y1) along whichever axis
  /// moves further.
  function LinePoint(x1: int, y1: int, x2: int, y2: int, k: int): Point {
    var dx, dy := Dist(x1, x2), Dist(y1, y2);
    if dx == 0 then Point(x1, Min(y1, y2) + k)
    else if dy == 0 then Point(Min(x1, x2) + k, y1)
    else if dx >= dy then Point(Toward(x1, x2, k), Toward(y1, y2, Round(k, dx, dy)))
    else Point(Toward(x1, x2, Round(k, dy, dx)), Toward(y1, y2, k))
  }

  /// The pixels glcd_plotLine writes, in order: one per step along the axis
  /// that moves further, endpoints included.
  function LinePoints(x1: int, y1: int, x2: int, y2: int): seq<Point> {
    seq(Max(Dist(x1, x2), Dist(y1, y2)) + 1, k => LinePoint(x1, y1, x2, y2, k))
  }

  /// The dx == 0 fast path: the column from the lower y to the higher.
  lemma VerticalLinePoints(x1: int, y1: int, x2: int, y2: int)
    requires x1 == x2
    ensures LinePoints(x1, y1, x2, y2) == seq(Dist(y1, y2) + 1, k => Point(x1, Min(y1, y2) + k))
  {
  }

  /// The dy == 0 fast path: the row from the lower x to the higher.
  lemma HorizontalLinePoints(x1: int, y1: int, x2: int, y2: int)
    requires x1 != x2 && y1 == y2
    ensures LinePoints(x1, y1, x2, y2) == seq(Dist(x1, x2) + 1, k => Point(Min(x1, x2) + k, y1))
  {
  }

  /// The line has max(dx,dy)+1 pixels and both endpoints are among them:
  /// the Bresenham runs start at (x1,y1) and end at (x2,y2), the axis runs
  /// go from the lower coordinate to the higher one.
  lemma LineEnds(x1: int, y1: int, x2: int, y2: int)
    ensures |LinePoints(x1, y1, x2, y2)| == Max(Dist(x1, x2), Dist(y1, y2)) + 1
    ensures Point(x1, y1) in LinePoints(x1, y1, x2, y2)
    ensures Point(x2, y2) in LinePoints(x1, y1, x2, y2)
    ensures Dist(x1, x2) != 0 && Dist(y1, y2) != 0 ==>
              LinePoints(x1, y1, x2, y2)[0] == Point(x1, y1) &&
              LinePoints(x1, y1, x2, y2)[Max(Dist(x1, x2), Dist(y1, y2))] == Point(x2, y2)
  {
    var pts, dx, dy := LinePoints(x1, y1, x2, y2), Dist(x1, x2), Dist(y1, y2);
    if dx == 0 {
      assert pts[y1 - Min(y1, y2)] == Point(x1, y1);
      assert pts[y2 - Min(y1, y2)] == Point(x2, y2);
    } else if dy == 0 {
      assert pts[x1 - Min(x1, x2)] == Point(x1, y1);
      assert pts[x2 - Min(x1, x2)] == Point(x2, y2);
    } else if dx >= dy {
      RoundEnds(dx, dy);
      assert pts[0] == Point(x1, y1);
      assert pts[dx] == Point(x2, y2);
    } else {
      RoundEnds(dy, dx);
      assert pts[0] == Point(x1, y1);
      assert pts[dy] == Point(x2, y2);
    }
  }

  /// Every pixel lies in the bounding box of the two endpoints.
  lemma LineInBox(x1: int, y1: int, x2: int, y2: int)
    ensures forall i | 0 <= i < |LinePoints(x1, y1, x2, y2)| ::
              Min(x1, x2) <= LinePoints(x1, y1, x2, y2)[i].x <= Max(x1, x2) &&
              Min(y1, y2) <= LinePoints(x1, y1, x2, y2)[i].y <= Max(y1, y2)
  {
    var pts, dx, dy := LinePoints(x1, y1, x2, y2), Dist(x1, x2), Dist(y1, y2);
    forall i | 0 <= i < |pts|
      ensures Min(x1, x2) <= pts[i].x <= Max(x1, x2) && Min(y1, y2) <= pts[i].y <= Max(y1, y2)
    {
      if dx != 0 && dy != 0 {
        if dx >= dy { RoundRange(i, dx, dy); } else { RoundRange(i, dy, dx); }
      }
    }
  }

  /// A line between two on-screen points stays on screen.
  lemma LineOnScreen(x1: int, y1: int, x2: int, y2: int)
    requires OnScreen(Point(x1, y1)) && OnScreen(Point(x2, y2))
    ensures AllOnScreen(LinePoints(x1, y1, x2, y2))
  {
    LineInBox(x1, y1, x2, y2);
  }

  /// Consecutive pixels are 8-connected: the major axis moves by exactly one
  /// pixel toward the second endpoint and the minor axis by at most one.
  lemma LineConnected(x1: int, y1: int, x2: int, y2: int)
    ensures forall i | 0 <= i < |LinePoints(x1, y1, x2, y2)| - 1 ::
              Dist(LinePoints(x1, y1, x2, y2)[i].x, LinePoints(x1, y1, x2, y2)[i + 1].x) <= 1 &&
              Dist(LinePoints(x1, y1, x2, y2)[i].y, LinePoints(x1, y1, x2, y2)[i + 1].y) <= 1 &&
              LinePoints(x1, y1, x2, y2)[i] != LinePoints(x1, y1, x2, y2)[i + 1]
  {
    var pts, dx, dy := LinePoints(x1, y1, x2, y2), Dist(x1, x2), Dist(y1, y2);
    forall i | 0 <= i < |pts| - 1
      ensures Dist(pts[i].x, pts[i + 1].x) <= 1 && Dist(pts[i].y, pts[i + 1].y) <= 1 &&
              pts[i] != pts[i + 1]
    {
      if dx != 0 && dy != 0 {
        if dx >= dy { RoundStep(i, dx, dy); } else { RoundStep(i, dy, dx); }
      }
    }
  }

  /// The Bresenham rule: along an x-major run each iteration moves x by
  /// one, and y moves exactly on the iterations whose error term is
  /// non-negative; the y-major run is the same with the axes swapped.
  lemma LineMinorStep(x1: int, y1: int, x2: int, y2: int, i: int)
    requires Dist(x1, x2) != 0 && Dist(y1, y2) != 0
    requires 0 <= i < Max(Dist(x1, x2), Dist(y1, y2))
    ensures var pts, dx, dy := LinePoints(x1, y1, x2, y2), Dist(x1, x2), Dist(y1, y2);
      if dx >= dy then
        pts[i + 1].x == Toward(pts[i].x, x2, 1) &&
        (pts[i + 1].y != pts[i].y <==> ErrorTerm(i, dx, dy) >= 0)
      else
        pts[i + 1].y == Toward(pts[i].y, y2, 1) &&
        (pts[i + 1].x != pts[i].x <==> ErrorTerm(i, dy, dx) >= 0)
  {
    var dx, dy := Dist(x1, x2), Dist(y1, y2);
    if dx >= dy {
      RoundStep(i, dx, dy);
      RoundRange(i, dx, dy);
    } else {
      RoundStep(i, dy, dx);
      RoundRange(i, dy, dx);
    }
  }

  /// Each pixel of a Bresenham run is the nearest grid point to the ideal
  /// segment along its minor axis: with k steps taken on the major axis and
  /// j on the minor one, |j - k * minor / major| <= 1/2.
  lemma LineNearest(x1: int, y1: int, x2: int, y2: int, i: int)
    requires Dist(x1, x2) != 0 && Dist(y1, y2) != 0
    requires 0 <= i < |LinePoints(x1, y1, x2, y2)|
    ensures var p, dx, dy := LinePoints(x1, y1, x2, y2)[i], Dist(x1, x2), Dist(y1, y2);
      if dx >= dy then
        Dist(x1, p.x) == i &&
        dx * (2 * Dist(y1, p.y) - 1) <= 2 * dy * i < dx * (2 * Dist(y1, p.y) + 1)
      else
        Dist(y1, p.y) == i &&
        dy * (2 * Dist(x1, p.x) - 1) <= 2 * dx * i < dy * (2 * Dist(x1, p.x) + 1)
  {
    var dx, dy := Dist(x1, x2), Dist(y1, y2);
    if dx >= dy {
      RoundRange(i, dx, dy);
      RoundNearest(i, dx, dy);
    } else {
      RoundRange(i, dy, dx);
      RoundNearest(i, dy, dx);
    }
  }

  /// A vertical line (the dx == 0 fast path) writes exactly the cells of its
  /// column between the two endpoints, each once.
  lemma VerticalLineCells(x1: int, y1: int, y2: int, p: Point)
    ensures Distinct(LinePoints(x1, y1, x1, y2))
    ensures p in LinePoints(x1, y1, x1, y2) <==> p.x == x1 && Min(y1, y2) <= p.y <= Max(y1, y2)
  {
    var pts := LinePoints(x1, y1, x1, y2);
    if p.x == x1 && Min(y1, y2) <= p.y <= Max(y1, y2) {
      assert pts[p.y - Min(y1, y2)] == p;
    }
  }

  /// A horizontal line writes exactly the cells of its row between the two
  /// endpoints, each once (the dy == 0 fast path, or the vertical one when
  /// the endpoints coincide).
  lemma HorizontalLineCells(x1: int, x2: int, y1: int, p: Point)
    ensures Distinct(LinePoints(x1, y1, x2, y1))
    ensures p in LinePoints(x1, y1, x2, y1) <==> p.y == y1 && Min(x1, x2) <= p.x <= Max(x1, x2)
  {
    var pts := LinePoints(x1, y1, x2, y1);
    if p.y == y1 && Min(x1, x2) <= p.x <= Max(x1, x2) {
      assert pts[p.x - Min(x1, x2)] == p;
    }
  }

  /// Each column between the endpoints of an x-major Bresenham run holds
  /// exactly one of its pixels (and each row of a y-major run).
  lemma LineMajorCoverage(x1: int, y1: int, x2: int, y2: int)
    requires Dist(x1, x2) != 0 && Dist(y1, y2) != 0
    ensures var pts := LinePoints(x1, y1, x2, y2);
      if Dist(x1, x2) >= Dist(y1, y2) then
        (forall i, j | 0 <= i < j < |pts| :: pts[i].x != pts[j].x) &&
        (forall c | Min(x1, x2) <= c <= Max(x1, x2) :: pts[Dist(x1, c)].x == c)
      else
        (forall i, j | 0 <= i < j < |pts| :: pts[i].y != pts[j].y) &&
        (forall c | Min(y1, y2) <= c <= Max(y1, y2) :: pts[Dist(y1, c)].y == c)
  {
  }

  /// Tie-break: when the first pixel's error term is exactly zero
  /// (dx == 2*dy), the run steps its minor axis on the first iteration.
  lemma LineTieStepsMinor(x1: int, y1: int, x2: int, y2: int)
    requires Dist(x1, x2) == 2 * Dist(y1, y2) > 0
    ensures LinePoints(x1, y1, x2, y2)[1] == Point(Toward(x1, x2, 1), Toward(y1, y2, 1))
  {
    var dx, dy := Dist(x1, x2), Dist(y1, y2);
    LineEnds(x1, y1, x2, y2);
    RoundEnds(dx, dy);
    LineMinorStep(x1, y1, x2, y2, 0);
    assert ErrorTerm(0, dx, dy) == 2 * dy - dx;
  }

  /// The traversal is not symmetric: a line two columns wide and one row
  /// high passes through the middle column on the second endpoint's row,
  /// and drawn the other way round on the first endpoint's row; from (0,0)
  /// to (2,1) it writes (1,1), from (2,1) to (0,0) it writes (1,0).
  lemma LineDirectionMatters(x1: int, y1: int, x2: int, y2: int)
    requires Dist(x1, x2) == 2 && Dist(y1, y2) == 1
    ensures Point(Toward(x1, x2, 1), y2) in LinePoints(x1, y1, x2, y2)
    ensures Point(Toward(x1, x2, 1), y2) !in LinePoints(x2, y2, x1, y1)
    ensures Point(Toward(x1, x2, 1), y1) in LinePoints(x2, y2, x1, y1)
    ensures Point(Toward(x1, x2, 1), y1) !in LinePoints(x1, y1, x2, y2)
  {
    TieLineMiddle(x1, y1, x2, y2);
    TieLineMiddle(x2, y2, x1, y1);
  }

  /// A line two columns wide and one row high writes its middle column on
  /// the second endpoint's row only.
  lemma TieLineMiddle(x1: int, y1: int, x2: int, y2: int)
    requires Dist(x1, x2) == 2 && Dist(y1, y2) == 1
    ensures Toward(x2, x1, 1) == Toward(x1, x2, 1)
    ensures Point(Toward(x1, x2, 1), y2) in LinePoints(x1, y1, x2, y2)
    ensures Point(Toward(x1, x2, 1), y1) !in LinePoints(x1, y1, x2, y2)
  {
    var pts := LinePoints(x1, y1, x2, y2);
    LineTieStepsMinor(x1, y1, x2, y2);
    LineEnds(x1, y1, x2, y2);
    ThreeMembers(pts, Point(x1, y1), Point(Toward(x1, x2, 1), y2), Point(x2, y2));
  }

  lemma ThreeMembers(pts: seq<Point>, a: Point, b: Point, c: Point)
    requires |pts| == 3 && pts[0] == a && pts[1] == b && pts[2] == c
    ensures forall q :: q in pts <==> q == a || q == b || q == c
  {
    assert pts == [a, b, c];
  }
}
