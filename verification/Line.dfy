// g_draw_line of lab/zeos/graphics.c: the incremental line walk visits exactly the rounded points.

module Lines {
  import opened Common

  datatype Point = Point(x: int, y: int)

  /** abs */
  function Abs(x: int): (r: nat)
    ensures r == x || r == -x
  {
    if x < 0 then -x else x
  }

  function Sign(d: int): int {
    if d < 0 then -1 else 1
  }

  function Max(a: int, b: int): int {
    if a > b then a else b
  }

  /** How far the minor axis has come after i steps of the major axis: i * minor / major, rounded, halves up. */
  function Offset(i: nat, minor: nat, major: nat): int {
    if major == 0 then 0 else (2 * i * minor + major) / (2 * major)
  }

  /** The point i steps along the line. */
  function LinePoint(x0: int, y0: int, x1: int, y1: int, i: nat): Point {
    var dx, dy := x1 - x0, y1 - y0;
    if Abs(dx) > Abs(dy)
    then Point(x0 + Sign(dx) * i, y0 + Sign(dy) * Offset(i, Abs(dy), Abs(dx)))
    else Point(x0 + Sign(dx) * Offset(i, Abs(dx), Abs(dy)), y0 + Sign(dy) * i)
  }

  // ---------- the decision variable

  /** pk after i steps that moved the minor axis by off: the rounding error of the next step, scaled. */
  ghost predicate Decision(pk: int, i: nat, off: int, minor: nat, major: nat) {
    && pk == 2 * (i + 1) * minor - major - 2 * major * off
    && (major > 0 ==> 2 * minor - 2 * major <= pk < 2 * minor)
  }

  lemma DecisionIsOffset(pk: int, i: nat, off: int, minor: nat, major: nat)
    requires Decision(pk, i, off, minor, major) && major > 0
    ensures off == Offset(i, minor, major)
  {
    var num := 2 * i * minor + major;
    assert 2 * (i + 1) * minor == 2 * i * minor + 2 * minor;
    assert 0 <= num - 2 * major * off < 2 * major;
    QuotientUnique(num, 2 * major, off, num - 2 * major * off);
  }

  lemma DecisionStep(pk: int, i: nat, off: int, minor: nat, major: nat)
    requires Decision(pk, i, off, minor, major) && minor <= major && major > 0
    ensures pk < 0 ==> Decision(pk + 2 * minor, i + 1, off, minor, major)
    ensures pk >= 0 ==> Decision(pk + 2 * minor - 2 * major, i + 1, off + 1, minor, major)
  {
    assert 2 * (i + 2) * minor == 2 * (i + 1) * minor + 2 * minor;
    assert 2 * major * (off + 1) == 2 * major * off + 2 * major;
  }

  // ---------- the drawing loop

  /** The points so far are the first points of the line. */
  ghost predicate Traced(points: seq<Point>, x0: int, y0: int, x1: int, y1: int) {
    forall j {:trigger points[j]} :: 0 <= j < |points| ==> points[j] == LinePoint(x0, y0, x1, y1, j)
  }

  lemma TracedMore(points: seq<Point>, x0: int, y0: int, x1: int, y1: int, p: Point)
    requires Traced(points, x0, y0, x1, y1) && p == LinePoint(x0, y0, x1, y1, |points|)
    ensures Traced(points + [p], x0, y0, x1, y1)
  {
  }

  /** The loop for lines that are wider than high. */
  method WalkX(x0: int, y0: int, x1: int, y1: int) returns (points: seq<Point>)
    requires Abs(x1 - x0) > Abs(y1 - y0)
    ensures |points| == Abs(x1 - x0) + 1 && Traced(points, x0, y0, x1, y1)
  {
    var ax: int, ay: int, dirX, dirY := Abs(x1 - x0), Abs(y1 - y0), Sign(x1 - x0), Sign(y1 - y0);
    var x, y := x0, y0;
    var pk: int := 2 * ay - ax;
    ghost var off := 0;
    points := [Point(x, y)];
    StartsAtOrigin(x0, y0, x1, y1);
    for i := 0 to ax
      invariant x == x0 + dirX * i && y == y0 + dirY * off
      invariant Decision(pk, i, off, ay, ax)
      invariant |points| == i + 1 && Traced(points, x0, y0, x1, y1)
    {
      DecisionStep(pk, i, off, ay, ax);
      x := x + dirX;
      if pk < 0 {
        pk := pk + 2 * ay;
      } else {
        y := y + dirY;
        pk := pk + 2 * ay - 2 * ax;
        off := off + 1;
      }
      DecisionIsOffset(pk, i + 1, off, ay, ax);
      TracedMore(points, x0, y0, x1, y1, Point(x, y));
      points := points + [Point(x, y)];
    }
  }

  /** The loop for lines that are at least as high as wide. */
  method WalkY(x0: int, y0: int, x1: int, y1: int) returns (points: seq<Point>)
    requires Abs(x1 - x0) <= Abs(y1 - y0)
    ensures |points| == Abs(y1 - y0) + 1 && Traced(points, x0, y0, x1, y1)
  {
    var ax: int, ay: int, dirX, dirY := Abs(x1 - x0), Abs(y1 - y0), Sign(x1 - x0), Sign(y1 - y0);
    var x, y := x0, y0;
    var pk: int := 2 * ax - ay;
    ghost var off := 0;
    points := [Point(x, y)];
    StartsAtOrigin(x0, y0, x1, y1);
    for i := 0 to ay
      invariant y == y0 + dirY * i && x == x0 + dirX * off
      invariant Decision(pk, i, off, ax, ay)
      invariant |points| == i + 1 && Traced(points, x0, y0, x1, y1)
    {
      DecisionStep(pk, i, off, ax, ay);
      y := y + dirY;
      if pk < 0 {
        pk := pk + 2 * ax;
      } else {
        x := x + dirX;
        pk := pk + 2 * ax - 2 * ay;
        off := off + 1;
      }
      DecisionIsOffset(pk, i + 1, off, ax, ay);
      TracedMore(points, x0, y0, x1, y1, Point(x, y));
      points := points + [Point(x, y)];
    }
  }

  /** g_draw_line; points are the positions handed to g_draw_xy, in order. */
  method DrawLine(x0: int, y0: int, x1: int, y1: int) returns (points: seq<Point>)
    ensures |points| == Max(Abs(x1 - x0), Abs(y1 - y0)) + 1
    ensures forall i :: 0 <= i < |points| ==> points[i] == LinePoint(x0, y0, x1, y1, i)
    ensures points[0] == Point(x0, y0) && points[|points| - 1] == Point(x1, y1)
  {
    if Abs(x1 - x0) > Abs(y1 - y0) {
      points := WalkX(x0, y0, x1, y1);
    } else {
      points := WalkY(x0, y0, x1, y1);
    }
    StartsAtOrigin(x0, y0, x1, y1);
    EndsAtTarget(x0, y0, x1, y1);
  }

  // ---------- what the points are

  lemma OffsetEnds(minor: nat, major: nat)
    requires minor <= major
    ensures Offset(0, minor, major) == 0 && Offset(major, minor, major) == minor
  {
    if major > 0 {
      QuotientUnique(major, 2 * major, 0, major);
      assert 2 * major * minor + major - 2 * major * minor == major;
      QuotientUnique(2 * major * minor + major, 2 * major, minor, major);
    }
  }

  lemma StartsAtOrigin(x0: int, y0: int, x1: int, y1: int)
    ensures LinePoint(x0, y0, x1, y1, 0) == Point(x0, y0)
  {
    OffsetEnds(if Abs(x1 - x0) > Abs(y1 - y0) then Abs(y1 - y0) else Abs(x1 - x0), Max(Abs(x1 - x0), Abs(y1 - y0)));
  }

  /** The last point is the end point. */
  lemma EndsAtTarget(x0: int, y0: int, x1: int, y1: int)
    ensures LinePoint(x0, y0, x1, y1, Max(Abs(x1 - x0), Abs(y1 - y0))) == Point(x1, y1)
  {
    OffsetEnds(if Abs(x1 - x0) > Abs(y1 - y0) then Abs(y1 - y0) else Abs(x1 - x0), Max(Abs(x1 - x0), Abs(y1 - y0)));
  }

  lemma OffsetSteps(i: nat, minor: nat, major: nat)
    requires minor <= major
    ensures 0 <= Offset(i + 1, minor, major) - Offset(i, minor, major) <= 1
  {
    if major > 0 {
      var a, b, d := 2 * i * minor + major, 2 * (i + 1) * minor + major, 2 * major;
      assert b == a + 2 * minor;
      var q := a / d;
      assert d * (q + 1) == d * q + d && d * (q + 2) == d * q + 2 * d;
      if b < d * (q + 1) {
        QuotientUnique(b, d, q, b - d * q);
      } else {
        QuotientUnique(b, d, q + 1, b - d * (q + 1));
      }
    }
  }

  /** Consecutive points are neighbours, diagonally at most. */
  lemma StepsAreNeighbours(x0: int, y0: int, x1: int, y1: int, i: nat)
    ensures var p, p' := LinePoint(x0, y0, x1, y1, i), LinePoint(x0, y0, x1, y1, i + 1);
            Max(Abs(p'.x - p.x), Abs(p'.y - p.y)) == 1
  {
    var ax, ay := Abs(x1 - x0), Abs(y1 - y0);
    if ax > ay {
      OffsetSteps(i, ay, ax);
    } else {
      OffsetSteps(i, ax, ay);
    }
  }

  /** The rounding is exact: the true minor-axis offset is at most half a cell away, and halves are rounded up. */
  lemma OffsetIsNearest(i: nat, minor: nat, major: nat)
    requires major > 0
    ensures 0 - major < 2 * (Offset(i, minor, major) * major - i * minor) <= major
  {
    var n, d := 2 * i * minor + major, 2 * major;
    var q := n / d;
    assert n == d * q + n % d && 0 <= n % d < d;
    assert 2 * (q * major) == d * q && 2 * (i * minor) == 2 * i * minor;
  }
}
