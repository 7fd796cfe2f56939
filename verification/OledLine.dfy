/** The line drawing of _ssd1306_line as the sequence of points it plots, and how close they are to the
    ideal line. */
module OledLine {
  import opened Arith

  datatype Point = Point(x: int, y: int)

  function Abs(n: int): (r: int)
    ensures r >= 0
  {
    if n < 0 then -n else n
  }

  function Max(a: int, b: int): int {
    if a > b then a else b
  }

  /** The direction of travel as the code picks it: -1 also when the coordinates are equal. */
  function Dir(from: int, to: int): int {
    if to > from then 1 else -1
  }

  /** The minor coordinate and the error term after one turn. */
  function NextMinor(b: int, sb: int, db: int, e: int): int {
    if e + 2 * db >= 0 then b + sb else b
  }

  function NextError(da: int, db: int, e: int): int {
    if e + 2 * db >= 0 then e + 2 * db - 2 * da else e + 2 * db
  }

  /** One of the two loops, as (major, minor) coordinates: `n` turns from (a, b) with error term `e`. */
  function Trace(a: int, b: int, sa: int, sb: int, da: int, db: int, e: int, n: nat): seq<(int, int)>
    decreases n
  {
    if n == 0 then []
    else
      var e1 := e + 2 * db;
      [(a, b)] + if e1 >= 0 then Trace(a + sa, b + sb, sa, sb, da, db, e1 - 2 * da, n - 1)
                 else Trace(a + sa, b, sa, sb, da, db, e1, n - 1)
  }

  function AsPoint(steep: bool, p: (int, int)): Point {
    if steep then Point(p.1, p.0) else Point(p.0, p.1)
  }

  function AsPoints(steep: bool, trace: seq<(int, int)>): (points: seq<Point>)
    ensures |points| == |trace|
    ensures forall i :: 0 <= i < |trace| ==> points[i] == AsPoint(steep, trace[i])
  {
    seq(|trace|, i requires 0 <= i < |trace| => AsPoint(steep, trace[i]))
  }

  lemma Turn(b: int, sb: int, da: int, db: int, e: int)
    ensures e + 2 * db >= 0 ==> NextMinor(b, sb, db, e) == b + sb && NextError(da, db, e) == e + 2 * db - 2 * da
    ensures e + 2 * db < 0 ==> NextMinor(b, sb, db, e) == b && NextError(da, db, e) == e + 2 * db
  {
  }

  /** One turn of a loop. */
  lemma TraceTurn(steep: bool, a: int, b: int, sa: int, sb: int, da: int, db: int, e: int, n: nat)
    requires n > 0
    ensures AsPoints(steep, Trace(a, b, sa, sb, da, db, e, n)) ==
              [AsPoint(steep, (a, b))]
              + AsPoints(steep, Trace(a + sa, NextMinor(b, sb, db, e), sa, sb, da, db, NextError(da, db, e), n - 1))
  {
  }

  /** The points plotted for a line from (x1, y1) to (x2, y2). */
  function LinePoints(x1: int, y1: int, x2: int, y2: int): seq<Point> {
    var dx, dy := Abs(x2 - x1), Abs(y2 - y1);
    var sx, sy := Dir(x1, x2), Dir(y1, y2);
    if dx > dy then AsPoints(false, Trace(x1, y1, sx, sy, dx, dy, -dx, dx + 1))
    else AsPoints(true, Trace(y1, x1, sy, sx, dy, dx, -dy, dy + 1))
  }

  /** `k` steps from a coordinate. */
  function Along(from: int, step: int, k: int): int {
    from + step * k
  }

  /** Minor steps taken after `i` turns from error term `e`. */
  function Minor(da: int, db: int, e: int, i: nat): int
    requires da > 0
  {
    (e + 2 * da + 2 * db * i) / (2 * da)
  }

  lemma MinorStep(da: int, db: int, e: int, i: nat)
    requires da > 0 && i > 0
    ensures Minor(da, db, e, i) == Minor(da, db, e + 2 * db, i - 1)
    ensures Minor(da, db, e, i) == 1 + Minor(da, db, e + 2 * db - 2 * da, i - 1)
  {
    assert 2 * db * i == 2 * db * (i - 1) + 2 * db;
    DivStep(e + 2 * da + 2 * db * i, 2 * da);
  }

  lemma TraceUnfold(a: int, b: int, sa: int, sb: int, da: int, db: int, e: int, n: nat)
    requires n > 0
    ensures Trace(a, b, sa, sb, da, db, e, n) ==
              [(a, b)] + Trace(a + sa, NextMinor(b, sb, db, e), sa, sb, da, db, NextError(da, db, e), n - 1)
  {
  }

  lemma ErrorRange(da: int, db: int, e: int)
    requires 0 <= db <= da && da > 0 && -2 * da <= e < 0
    ensures -2 * da <= NextError(da, db, e) < 0
  {
  }

  /** One turn moves the minor coordinate by what it takes off the turns left. */
  lemma MinorTurn(b: int, sb: int, da: int, db: int, e: int, i: nat)
    requires da > 0 && i > 0
    ensures Along(b, sb, Minor(da, db, e, i)) ==
              Along(NextMinor(b, sb, db, e), sb, Minor(da, db, NextError(da, db, e), i - 1))
  {
    hide Minor, Along;
    MinorStep(da, db, e, i);
    AlongSteps(b, sb, Minor(da, db, e, i));
  }

  /** Position after `i` turns, for an error term within its invariant range. */
  lemma {:induction false} TraceAt(a: int, b: int, sa: int, sb: int, da: int, db: int, e: int, n: nat, i: nat)
    requires 0 <= db <= da && da > 0 && -2 * da <= e < 0 && i < n
    ensures |Trace(a, b, sa, sb, da, db, e, n)| == n
    ensures Trace(a, b, sa, sb, da, db, e, n)[i] == (Along(a, sa, i), Along(b, sb, Minor(da, db, e, i)))
    decreases n
  {
    hide *;
    TraceLength(a, b, sa, sb, da, db, e, n);
    TraceUnfold(a, b, sa, sb, da, db, e, n);
    if i == 0 {
      MinorStart(da, db, e);
      AlongSteps(a, sa, 0);
      AlongSteps(b, sb, 0);
    } else {
      ErrorRange(da, db, e);
      TraceAt(a + sa, NextMinor(b, sb, db, e), sa, sb, da, db, NextError(da, db, e), n - 1, i - 1);
      AlongSteps(a, sa, i);
      MinorTurn(b, sb, da, db, e, i);
    }
  }

  lemma MinorStart(da: int, db: int, e: int)
    requires da > 0 && -2 * da <= e < 0
    ensures Minor(da, db, e, 0) == 0
  {
    DivUnique(e + 2 * da, 2 * da, 0, e + 2 * da);
  }

  lemma AlongSteps(from: int, step: int, k: int)
    ensures Along(from, step, 0) == from
    ensures Along(from, step, k) == Along(from + step, step, k - 1)
  {
  }

  lemma {:induction false} TraceLength(a: int, b: int, sa: int, sb: int, da: int, db: int, e: int, n: nat)
    ensures |Trace(a, b, sa, sb, da, db, e, n)| == n
    decreases n
  {
    if n > 0 {
      var e1 := e + 2 * db;
      if e1 >= 0 {
        TraceLength(a + sa, b + sb, sa, sb, da, db, e1 - 2 * da, n - 1);
      } else {
        TraceLength(a + sa, b, sa, sb, da, db, e1, n - 1);
      }
    }
  }

  lemma MinorProduct(da: int, db: int, i: nat)
    requires 0 <= db <= da && da > 0
    ensures var k := Minor(da, db, -da, i);
            -da < 2 * (k * da - db * i) <= da
  {
    var n, d := da + 2 * db * i, 2 * da;
    var k := n / d;
    assert -da + 2 * da + 2 * db * i == n;
    assert n == k * d + n % d;
    assert k * d == 2 * (k * da) && 2 * db * i == 2 * (db * i);
  }

  lemma QuotientExact(k: int, m: int, da: int)
    requires da > 0 && -da < 2 * (k * da - m * da) <= da
    ensures k == m
  {
    assert k * da - m * da == (k - m) * da;
    if k > m {
      MulMono(k - m, 1, da);
    } else if k < m {
      MulMono(-1, k - m, da);
    }
  }

  lemma QuotientBounds(k: int, db: int, da: int, p: int)
    requires da > 0 && 0 <= p <= db * da && -da < 2 * (k * da - p) <= da
    ensures 0 <= k <= db
  {
    if k < 0 {
      MulMono(-1, k, da);
    } else if k > db {
      MulMono(k, db + 1, da);
    }
  }

  /** From the start of a line: the minor coordinate is the rounded ideal one, within half a step. */
  lemma MinorRounds(da: int, db: int, i: nat)
    requires 0 <= db <= da && da > 0 && i <= da
    ensures var k := Minor(da, db, -da, i);
            && 0 <= k <= db
            && -da < 2 * (k * da - db * i) <= da
            && (i == 0 ==> k == 0)
            && (i == da ==> k == db)
  {
    var k := Minor(da, db, -da, i);
    MinorProduct(da, db, i);
    hide Minor;
    assert 0 <= db * i <= db * da by {
      MulMono(i, 0, db);
      MulMono(da, i, db);
    }
    QuotientBounds(k, db, da, db * i);
    if i == 0 {
      QuotientExact(k, 0, da);
    }
    if i == da {
      QuotientExact(k, db, da);
    }
  }

  /** Twice the area spanned with the line's direction: the distance from the ideal line along the minor axis
      is this over 2 * max(dx, dy). */
  function Off(x1: int, y1: int, x2: int, y2: int, p: Point): int {
    2 * ((p.y - y1) * (x2 - x1) - (p.x - x1) * (y2 - y1))
  }

  predicate InBox(x1: int, y1: int, x2: int, y2: int, p: Point) {
    && (x1 <= p.x <= x2 || x2 <= p.x <= x1)
    && (y1 <= p.y <= y2 || y2 <= p.y <= y1)
  }

  lemma Signed(from: int, to: int, k: int)
    requires 0 <= k <= Abs(to - from)
    ensures from <= from + Dir(from, to) * k <= to || to <= from + Dir(from, to) * k <= from
    ensures from + Dir(from, to) * Abs(to - from) == to
  {
  }

  lemma OffBound(s: int, t: int, k: int, da: int, i: int, db: int)
    requires (s == 1 || s == -1) && (t == 1 || t == -1)
    requires -da <= 2 * (k * da - db * i) <= da
    ensures Abs(2 * ((t * k) * (s * da) - (s * i) * (t * db))) <= da
    ensures Abs(2 * ((s * i) * (t * db) - (t * k) * (s * da))) <= da
  {
    assert k * da - db * i == k * da - i * db;
  }

  /** `k` is i * db / da, rounded to the nearest integer, halves upwards. */
  predicate Rounded(da: int, db: int, i: int, k: int) {
    -da < 2 * (k * da - db * i) <= da
  }

  /** Main result: a line has max(dx, dy) + 1 points, runs from the first endpoint to the second, stays in their
      bounding box, advances one step per point on the major axis, and is everywhere within half a pixel of
      the ideal line on the minor axis, on the far side of it from the first endpoint where it is half a pixel off. So
      every point is determined. */
  lemma LineShape(x1: int, y1: int, x2: int, y2: int, i: nat)
    requires i < |LinePoints(x1, y1, x2, y2)|
    ensures var points := LinePoints(x1, y1, x2, y2);
            var major := Max(Abs(x2 - x1), Abs(y2 - y1));
            && |points| == major + 1
            && points[0] == Point(x1, y1)
            && points[major] == Point(x2, y2)
            && InBox(x1, y1, x2, y2, points[i])
            && Abs(Off(x1, y1, x2, y2, points[i])) <= major
            && (if Abs(x2 - x1) > Abs(y2 - y1) then
                  && points[i].x == x1 + Dir(x1, x2) * i
                  && Rounded(major, Abs(y2 - y1), i, (points[i].y - y1) * Dir(y1, y2))
                else
                  && points[i].y == y1 + Dir(y1, y2) * i
                  && (major > 0 ==> Rounded(major, Abs(x2 - x1), i, (points[i].x - x1) * Dir(x1, x2))))
  {
    hide Trace, Off, InBox, Rounded;
    var dx, dy := Abs(x2 - x1), Abs(y2 - y1);
    var sx, sy := Dir(x1, x2), Dir(y1, y2);
    if dx > dy {
      TraceLength(x1, y1, sx, sy, dx, dy, -dx, dx + 1);
      MajorPoint(x1, y1, x2, y2, 0);
      MajorPoint(x1, y1, x2, y2, dx);
      MajorPoint(x1, y1, x2, y2, i);
    } else if dy > 0 {
      TraceLength(y1, x1, sy, sx, dy, dx, -dy, dy + 1);
      MajorPoint(y1, x1, y2, x2, 0);
      MajorPoint(y1, x1, y2, x2, dy);
      MajorPoint(y1, x1, y2, x2, i);
    } else {
      LineDot(x1, y1);
    }
  }

  lemma LineDot(x: int, y: int)
    ensures LinePoints(x, y, x, y) == [Point(x, y)]
    ensures InBox(x, y, x, y, Point(x, y)) && Off(x, y, x, y, Point(x, y)) == 0
  {
    assert Trace(y, x, -1, -1, 0, 0, 0, 1) == [(y, x)];
  }

  /** The `i`-th point of a line whose major axis is the first coordinate. */
  lemma MajorPoint(a1: int, b1: int, a2: int, b2: int, i: nat)
    requires var da := Abs(a2 - a1); da > 0 && Abs(b2 - b1) <= da && i <= da
    ensures var da, db, sa, sb := Abs(a2 - a1), Abs(b2 - b1), Dir(a1, a2), Dir(b1, b2);
            var trace := Trace(a1, b1, sa, sb, da, db, -da, da + 1);
            && |trace| == da + 1
            && trace[i].0 == Along(a1, sa, i)
            && InBox(a1, b1, a2, b2, Point(trace[i].0, trace[i].1))
            && InBox(b1, a1, b2, a2, Point(trace[i].1, trace[i].0))
            && Abs(Off(a1, b1, a2, b2, Point(trace[i].0, trace[i].1))) <= da
            && Abs(Off(b1, a1, b2, a2, Point(trace[i].1, trace[i].0))) <= da
            && Rounded(da, db, i, (trace[i].1 - b1) * sb)
            && (i == 0 ==> trace[i] == (a1, b1))
            && (i == da ==> trace[i] == (a2, b2))
  {
    hide *;
    var da, db, sa, sb := Abs(a2 - a1), Abs(b2 - b1), Dir(a1, a2), Dir(b1, b2);
    TraceAt(a1, b1, sa, sb, da, db, -da, da + 1, i);
    MinorRounds(da, db, i);
    PointNear(a1, b1, a2, b2, i, Minor(da, db, -da, i));
    IsRounded(da, db, i, Minor(da, db, -da, i));
    BackAlong(b1, b2, Minor(da, db, -da, i));
  }

  lemma IsRounded(da: int, db: int, i: int, k: int)
    requires -da < 2 * (k * da - db * i) <= da
    ensures Rounded(da, db, i, k)
  {
  }

  lemma BackAlong(from: int, to: int, k: int)
    ensures (Along(from, Dir(from, to), k) - from) * Dir(from, to) == k
  {
  }

  /** The point `i` steps along the major and `k` steps along the minor axis. */
  lemma PointNear(a1: int, b1: int, a2: int, b2: int, i: int, k: int)
    requires var da, db := Abs(a2 - a1), Abs(b2 - b1);
             0 <= i <= da && 0 <= k <= db && -da <= 2 * (k * da - db * i) <= da
    ensures var a, b := Along(a1, Dir(a1, a2), i), Along(b1, Dir(b1, b2), k);
            && InBox(a1, b1, a2, b2, Point(a, b))
            && InBox(b1, a1, b2, a2, Point(b, a))
            && Abs(Off(a1, b1, a2, b2, Point(a, b))) <= Abs(a2 - a1)
            && Abs(Off(b1, a1, b2, a2, Point(b, a))) <= Abs(a2 - a1)
            && (i == 0 ==> a == a1) && (k == 0 ==> b == b1)
            && (i == Abs(a2 - a1) ==> a == a2) && (k == Abs(b2 - b1) ==> b == b2)
  {
    Signed(a1, a2, i);
    Signed(b1, b2, k);
    var sa, sb := Dir(a1, a2), Dir(b1, b2);
    OffFrom(a1, b1, a2, b2, sa * i, sb * k);
    OffBound(sa, sb, k, Abs(a2 - a1), i, Abs(b2 - b1));
    hide Off;
  }

  lemma OffFrom(a1: int, b1: int, a2: int, b2: int, i: int, k: int)
    ensures var s, t, da, db := Dir(a1, a2), Dir(b1, b2), Abs(a2 - a1), Abs(b2 - b1);
            && Off(a1, b1, a2, b2, Point(a1 + i, b1 + k)) == 2 * (k * (s * da) - i * (t * db))
            && Off(b1, a1, b2, a2, Point(b1 + k, a1 + i)) == 2 * (i * (t * db) - k * (s * da))
            && (s == 1 || s == -1) && (t == 1 || t == -1)
  {
  }
}
