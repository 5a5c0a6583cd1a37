/** The integer rasterisers of graphics/draw/draw.c: the Bresenham line and the midpoint circle,
    proved against exact rounding. */
module Raster {
  import opened Arith
  import opened Colour
  import opened Pixmap

  datatype Point = Point(x: int, y: int)

  // ---------------------------------------------------------------- plotting

  function Plotted(im: Image, p: Point, c: Argb): Image {
    if 0 <= p.y < |im| && 0 <= p.x < |im[p.y]| then im[p.y := im[p.y][p.x := Blend(im[p.y][p.x], c)]]
    else im
  }

  /** Points drawn one after the other; with a translucent colour a point drawn twice shows. */
  function PlottedAll(im: Image, ps: seq<Point>, c: Argb): Image {
    if ps == [] then im else Plotted(PlottedAll(im, ps[..|ps| - 1], c), ps[|ps| - 1], c)
  }

  lemma {:induction false} PlottedConcat(im: Image, ps: seq<Point>, qs: seq<Point>, c: Argb)
    ensures PlottedAll(im, ps + qs, c) == PlottedAll(PlottedAll(im, ps, c), qs, c)
    decreases |qs|
  {
    if qs == [] {
      assert ps + qs == ps;
    } else {
      assert (ps + qs)[..|ps + qs| - 1] == ps + qs[..|qs| - 1];
      PlottedConcat(im, ps, qs[..|qs| - 1], c);
    }
  }

  /** draw_pixel: nothing happens off the surface. */
  method DrawPixel(s: array2<Argb>, x: int, y: int, c: Argb)
    modifies s
    ensures Snapshot(s) == Plotted(old(Snapshot(s)), Point(x, y), c)
  {
    if x < 0 || y < 0 || x >= s.Length1 || y >= s.Length0 {
      return;
    }
    ghost var was := Snapshot(s);
    if c.a == 255 {
      s[y, x] := c;
    } else if c.a != 0 {
      s[y, x] := Blend(s[y, x], c);
    }
    SameImage(Snapshot(s), Plotted(was, Point(x, y), c), s.Length1, s.Length0);
  }

  // ---------------------------------------------------------------- lines

  /** After `a` steps in x and `b` in y, the point lies within half a pixel of the ideal line,
      measured along the shorter axis, with ties always broken the same way. */
  predicate Rounds(dx: int, dy: int, a: int, b: int) {
    var d := b * dx - a * dy;
    if dx >= dy then -dx <= 2 * d && (2 * d < dx || dx == 0) else -dy < 2 * d <= dy
  }

  /** Steps taken along the longer axis. */
  function Along(dx: int, dy: int, a: int, b: int): int {
    if dx >= dy then a else b
  }

  lemma LongerX(dx: int, dy: int, a: int, b: int)
    requires dx >= dy >= 0 && dx > 0 && Rounds(dx, dy, a, b)
    ensures var e := 2 * (dx - dy + (b * dx - a * dy));
            e > -dy && Rounds(dx, dy, a + 1, if e < dx then b + 1 else b)
  {
    NextMultiple(b, dx);
    NextMultiple(a, dy);
    if dx == dy {
      assert b * dx - a * dy == (b - a) * dx;
      SmallMultiple(b - a, dx);
    }
  }

  lemma LongerY(dx: int, dy: int, a: int, b: int)
    requires 0 <= dx < dy && Rounds(dx, dy, a, b)
    ensures var e := 2 * (dx - dy + (b * dx - a * dy));
            e < dx && Rounds(dx, dy, if e > -dy then a + 1 else a, b + 1)
  {
    NextMultiple(b, dx);
    NextMultiple(a, dy);
  }

  /** Where the longer axis has got to decides where the shorter one is. */
  lemma RoundsUnique(dx: int, dy: int, a: int, b: int, a': int, b': int)
    requires dx >= 0 && dy >= 0 && Max(dx, dy) > 0
    requires Rounds(dx, dy, a, b) && Rounds(dx, dy, a', b')
    requires Along(dx, dy, a, b) == Along(dx, dy, a', b')
    ensures a == a' && b == b'
  {
    if dx >= dy {
      assert (b - b') * dx == (b * dx - a * dy) - (b' * dx - a' * dy);
      SmallMultiple(b - b', dx);
    } else {
      assert (a' - a) * dy == (b * dx - a * dy) - (b' * dx - a' * dy);
      SmallMultiple(a' - a, dy);
    }
  }

  /** If the longer of two sides `n` has not run past its end, neither has the shorter `m`. */
  lemma ShorterInside(n: int, m: int, i: int, j: int)
    requires 0 <= m <= n && 0 < n && i <= n && 2 * (j * n - i * m) <= n
    ensures j <= m
  {
    Monotone(i, n, m);
    if j >= m + 1 {
      Monotone(m + 1, j, n);
      NextMultiple(m, n);
    }
  }

  /** Neither axis runs past its end, and both arrive together. */
  lemma StaysInside(dx: int, dy: int, a: nat, b: nat)
    requires dx >= 0 && dy >= 0 && Max(dx, dy) > 0
    requires Rounds(dx, dy, a, b) && Along(dx, dy, a, b) <= Max(dx, dy)
    ensures a <= dx && b <= dy
    ensures Along(dx, dy, a, b) == Max(dx, dy) ==> a == dx && b == dy
  {
    if dx >= dy {
      ShorterInside(dx, dy, a, b);
    } else {
      ShorterInside(dy, dx, b, a);
    }
    if Along(dx, dy, a, b) == Max(dx, dy) {
      assert dy * dx - dx * dy == 0;
      RoundsUnique(dx, dy, a, b, dx, dy);
    }
  }

  /** The loop's variables. */
  datatype Pen = Pen(x: int, y: int, err: int)

  /** One round of the loop. */
  function Advanced(dx: int, dy: int, sx: int, sy: int, t: Pen): Pen {
    var right, down := 2 * t.err > -dy, 2 * t.err < dx;
    Pen(if right then t.x + sx else t.x, if down then t.y + sy else t.y,
        t.err - (if right then dy else 0) + (if down then dx else 0))
  }

  function Sign(from: int, to: int): int {
    if from < to then 1 else -1
  }

  /** The pen has made `a` steps in x and `b` in y on the way from `p` to `q`. */
  predicate At(p: Point, q: Point, a: nat, b: nat, t: Pen) {
    var dx, dy := Abs(q.x - p.x), Abs(q.y - p.y);
    && t.x == (if p.x < q.x then p.x + a else p.x - a) && t.y == (if p.y < q.y then p.y + b else p.y - b)
    && t.err == dx - dy + (b * dx - a * dy) && Rounds(dx, dy, a, b) && a <= dx && b <= dy
  }

  /** The error term stays exact and the longer axis moves by one. */
  lemma LineStep(p: Point, q: Point, a: nat, b: nat, t: Pen) returns (a': nat, b': nat)
    requires At(p, q, a, b, t) && Point(t.x, t.y) != q
    ensures var dx, dy := Abs(q.x - p.x), Abs(q.y - p.y);
            && At(p, q, a', b', Advanced(dx, dy, Sign(p.x, q.x), Sign(p.y, q.y), t))
            && Along(dx, dy, a', b') == Along(dx, dy, a, b) + 1 <= Max(dx, dy)
  {
    var dx, dy := Abs(q.x - p.x), Abs(q.y - p.y);
    StaysInside(dx, dy, a, b);
    a', b' := if 2 * t.err > -dy then a + 1 else a, if 2 * t.err < dx then b + 1 else b;
    NextMultiple(b, dx);
    NextMultiple(a, dy);
    if dx >= dy {
      LongerX(dx, dy, a, b);
    } else {
      LongerY(dx, dy, a, b);
    }
    StaysInside(dx, dy, a', b');
  }

  /** Point number `k` of the line from `p` to `q`. */
  predicate LinePoint(p: Point, q: Point, k: int, t: Point) {
    var dx, dy := Abs(q.x - p.x), Abs(q.y - p.y);
    var a, b := Abs(t.x - p.x), Abs(t.y - p.y);
    && (t.x == if p.x < q.x then p.x + a else p.x - a) && (t.y == if p.y < q.y then p.y + b else p.y - b)
    && a <= dx && b <= dy && Rounds(dx, dy, a, b) && Along(dx, dy, a, b) == k
  }

  /** The line from `p` to `q`: one point for each step along the longer axis. */
  predicate IsLine(p: Point, q: Point, ts: seq<Point>) {
    && |ts| == Max(Abs(q.x - p.x), Abs(q.y - p.y)) + 1
    && forall k :: 0 <= k < |ts| ==> LinePoint(p, q, k, ts[k])
  }

  /** The only point of a line this far along. */
  lemma LinePointUnique(p: Point, q: Point, k: int, t: Point, u: Point)
    requires LinePoint(p, q, k, t) && LinePoint(p, q, k, u)
    ensures t == u
  {
    var dx, dy := Abs(q.x - p.x), Abs(q.y - p.y);
    if Max(dx, dy) > 0 {
      RoundsUnique(dx, dy, Abs(t.x - p.x), Abs(t.y - p.y), Abs(u.x - p.x), Abs(u.y - p.y));
    }
  }

  lemma EndsAreOnLine(p: Point, q: Point)
    ensures LinePoint(p, q, 0, p) && LinePoint(p, q, Max(Abs(q.x - p.x), Abs(q.y - p.y)), q)
  {
    var dx, dy := Abs(q.x - p.x), Abs(q.y - p.y);
    assert dy * dx - dx * dy == 0;
  }

  /** It starts at `p`, ends at `q`, and every point is within half a pixel of the ideal line. */
  lemma LineMeets(p: Point, q: Point, ts: seq<Point>)
    requires IsLine(p, q, ts)
    ensures ts[0] == p && ts[|ts| - 1] == q
    ensures forall k :: 0 <= k < |ts| ==> HalfPixel(p, q, ts[k])
  {
    EndsAreOnLine(p, q);
    LinePointUnique(p, q, 0, p, ts[0]);
    LinePointUnique(p, q, |ts| - 1, q, ts[|ts| - 1]);
    forall k | 0 <= k < |ts|
      ensures HalfPixel(p, q, ts[k])
    {
      assert LinePoint(p, q, k, ts[k]);
    }
  }

  predicate HalfPixel(p: Point, q: Point, t: Point) {
    var dx, dy := Abs(q.x - p.x), Abs(q.y - p.y);
    2 * Abs(Abs(t.y - p.y) * dx - Abs(t.x - p.x) * dy) <= Max(dx, dy)
  }

  /** There is only one such line. */
  lemma LineUnique(p: Point, q: Point, ts: seq<Point>, us: seq<Point>)
    requires IsLine(p, q, ts) && IsLine(p, q, us)
    ensures ts == us
  {
    forall k | 0 <= k < |ts|
      ensures ts[k] == us[k]
    {
      LinePointUnique(p, q, k, ts[k], us[k]);
    }
  }

  predicate LinePrefix(p: Point, q: Point, ts: seq<Point>) {
    forall k :: 0 <= k < |ts| ==> LinePoint(p, q, k, ts[k])
  }

  /** The pen is `|ts|` steps along, and `ts` are the points before it. */
  predicate Tracing(p: Point, q: Point, a: nat, b: nat, t: Pen, ts: seq<Point>) {
    var dx, dy := Abs(q.x - p.x), Abs(q.y - p.y);
    At(p, q, a, b, t) && Along(dx, dy, a, b) == |ts| <= Max(dx, dy) && LinePrefix(p, q, ts)
  }

  /** The point under the pen is the next one; if it is not the last, the pen moves on. */
  lemma TraceMore(p: Point, q: Point, a: nat, b: nat, t: Pen, ts: seq<Point>) returns (a': nat, b': nat)
    requires Tracing(p, q, a, b, t, ts)
    ensures Point(t.x, t.y) == q ==> IsLine(p, q, ts + [Point(t.x, t.y)])
    ensures var dx, dy := Abs(q.x - p.x), Abs(q.y - p.y);
            Point(t.x, t.y) != q ==>
              Tracing(p, q, a', b', Advanced(dx, dy, Sign(p.x, q.x), Sign(p.y, q.y), t), ts + [Point(t.x, t.y)])
  {
    AddPoint(p, q, a, b, t, ts);
    a', b' := a, b;
    if Point(t.x, t.y) != q {
      a', b' := LineStep(p, q, a, b, t);
    }
  }

  lemma AddPoint(p: Point, q: Point, a: nat, b: nat, t: Pen, ts: seq<Point>)
    requires Tracing(p, q, a, b, t, ts)
    ensures LinePrefix(p, q, ts + [Point(t.x, t.y)])
    ensures Point(t.x, t.y) == q ==> |ts| == Max(Abs(q.x - p.x), Abs(q.y - p.y))
  {
    PenOnLine(p, q, a, b, t);
    var more := ts + [Point(t.x, t.y)];
    forall k | 0 <= k < |more|
      ensures LinePoint(p, q, k, more[k])
    {
      assert more[k] == if k < |ts| then ts[k] else Point(t.x, t.y);
    }
  }

  lemma PenOnLine(p: Point, q: Point, a: nat, b: nat, t: Pen)
    requires At(p, q, a, b, t)
    ensures var dx, dy := Abs(q.x - p.x), Abs(q.y - p.y);
            && LinePoint(p, q, Along(dx, dy, a, b), Point(t.x, t.y))
            && (Point(t.x, t.y) == q ==> Along(dx, dy, a, b) == Max(dx, dy))
  {}

  /** draw_line, for any endpoints: it stops, and plots exactly the line. */
  method DrawLine(s: array2<Argb>, p: Point, q: Point, c: Argb) returns (ghost ts: seq<Point>)
    modifies s
    ensures IsLine(p, q, ts)
    ensures Snapshot(s) == PlottedAll(old(Snapshot(s)), ts, c)
  {
    var dx, dy := Abs(q.x - p.x), Abs(q.y - p.y);
    var sx, sy := if p.x < q.x then 1 else -1, if p.y < q.y then 1 else -1;
    var x, y, err := p.x, p.y, dx - dy;
    ghost var a: nat, b: nat := 0, 0;
    ts := [];
    while true
      invariant Tracing(p, q, a, b, Pen(x, y, err), ts)
      invariant Snapshot(s) == PlottedAll(old(Snapshot(s)), ts, c)
      decreases Max(dx, dy) - |ts|
    {
      DrawPixel(s, x, y, c);
      assert (ts + [Point(x, y)])[..|ts|] == ts;
      a, b := TraceMore(p, q, a, b, Pen(x, y, err), ts);
      ts := ts + [Point(x, y)];
      if x == q.x && y == q.y {
        break;
      }
      x, y, err := Advance(dx, dy, sx, sy, x, y, err);
    }
  }

  method Advance(dx: int, dy: int, sx: int, sy: int, x: int, y: int, err: int) returns (x': int, y': int, err': int)
    ensures Pen(x', y', err') == Advanced(dx, dy, sx, sy, Pen(x, y, err))
  {
    x', y', err' := x, y, err;
    var e2 := 2 * err;
    if e2 > -dy {
      err', x' := err' - dy, x' + sx;
    }
    if e2 < dx {
      err', y' := err' + dx, y' + sy;
    }
  }

  // ---------------------------------------------------------------- circles

  /** How far a point lies outside the circle. */
  function Excess(r: int, x: int, y: int): int {
    x * x + y * y - r * r
  }

  /** The best row for column `x` of the upper octant: going one further out would be more than
      half a pixel too far, and so would going one further in. */
  predicate OnCircle(r: int, x: int, y: int) {
    -y <= Excess(r, x, y) < y
  }

  lemma OnCircleUnique(r: int, x: int, y: int, y': int)
    requires 0 <= y && 0 <= y' && OnCircle(r, x, y) && OnCircle(r, x, y')
    ensures y == y'
  {
    Apart(r, x, y, y');
    Apart(r, x, y', y);
  }

  lemma Apart(r: int, x: int, y: int, y': int)
    requires 0 <= y && 0 <= y' && OnCircle(r, x, y) && OnCircle(r, x, y')
    ensures y' <= y
  {
    if y' >= y + 1 {
      assert y' * y' - y * y == (y' - y) * (y' + y);
      Monotone(1, y' - y, y' + y);
    }
  }

  /** The decision variable: the excess of the two candidates for the next column together. */
  function Decision(r: int, x: int, y: int): int {
    2 * ((x + 1) * (x + 1)) + y * y + (y - 1) * (y - 1) - 2 * (r * r)
  }

  lemma CircleStep(r: int, x: int, y: int)
    requires 0 <= x <= y && OnCircle(r, x, y)
    ensures var d := Decision(r, x, y);
            var y' := if d < 0 then y else y - 1;
            && Decision(r, x + 1, y') == (if d < 0 then d + 4 * x + 6 else d + 4 * (x - y) + 10)
            && (x + 1 <= y' ==> OnCircle(r, x + 1, y'))
            && (x + 1 > y' ==> Excess(r, x + 1, x + 1) >= x + 1)
  {
    Squares(x);
    Squares(x + 1);
    Squares(y - 1);
    Squares(y - 2);
  }

  lemma Squares(n: int)
    ensures (n + 1) * (n + 1) == n * n + 2 * n + 1
  {}

  /** Past the diagonal no column has a point of the octant any more. */
  lemma PastDiagonal(r: int, n: int, x: int, y: int)
    requires 0 <= n <= x <= y && Excess(r, n, n) >= n
    ensures !OnCircle(r, x, y)
  {
    assert y * y - n * n == (y - n) * (y + n);
    Monotone(n, x, n);
    Monotone(n, x, x);
    if y > n {
      Monotone(1, y - n, y + n);
    }
  }

  /** The eight reflections of an octant point, in the order they are drawn. */
  function Eight(cx: int, cy: int, x: int, y: int): seq<Point> {
    [Point(cx + x, cy + y), Point(cx - x, cy + y), Point(cx + x, cy - y), Point(cx - x, cy - y),
     Point(cx + y, cy + x), Point(cx - y, cy + x), Point(cx + y, cy - x), Point(cx - y, cy - x)]
  }

  /** Rows of the octant, one for each column from 0 on. */
  predicate Octant(r: int, rows: seq<int>) {
    forall x :: 0 <= x < |rows| ==> x <= rows[x] && OnCircle(r, x, rows[x])
  }

  /** Up to the diagonal, these are all the points whose rounding is exact, and no others. */
  lemma OctantExact(r: int, rows: seq<int>, x: int, y: int)
    requires Octant(r, rows) && Excess(r, |rows|, |rows|) >= |rows|
    ensures (0 <= x < |rows| && rows[x] == y) <==> (0 <= x <= y && OnCircle(r, x, y))
  {
    if 0 <= x <= y && OnCircle(r, x, y) {
      if x < |rows| {
        OnCircleUnique(r, x, y, rows[x]);
      } else {
        PastDiagonal(r, |rows|, x, y);
      }
    }
  }

  function Ring(cx: int, cy: int, rows: seq<int>): seq<Point> {
    if rows == [] then []
    else Ring(cx, cy, rows[..|rows| - 1]) + Eight(cx, cy, |rows| - 1, rows[|rows| - 1])
  }

  method DrawEight(s: array2<Argb>, cx: int, cy: int, x: int, y: int, c: Argb)
    modifies s
    ensures Snapshot(s) == PlottedAll(old(Snapshot(s)), Eight(cx, cy, x, y), c)
  {
    var ps := Eight(cx, cy, x, y);
    ghost var im := Snapshot(s);
    assert ps[..0] == [];
    for i := 0 to |ps|
      invariant Snapshot(s) == PlottedAll(im, ps[..i], c)
    {
      assert ps[..i + 1][..i] == ps[..i];
      DrawPixel(s, ps[i].x, ps[i].y, c);
    }
    assert ps[..|ps|] == ps;
  }

  /** draw_circle: it stops, and every octant point is the exact rounding of the circle. */
  method DrawCircle(s: array2<Argb>, cx: int, cy: int, r: int, c: Argb) returns (ghost rows: seq<int>)
    modifies s
    ensures Octant(r, rows) && (r <= 0 ==> rows == [])
    ensures r > 0 ==> Excess(r, |rows|, |rows|) >= |rows|
    ensures Snapshot(s) == PlottedAll(old(Snapshot(s)), Ring(cx, cy, rows), c)
  {
    rows := [];
    if r <= 0 {
      return;
    }
    var x, y, d := 0, r, 3 - 2 * r;
    Squares(r - 1);
    while x <= y
      invariant 0 <= x == |rows| && d == Decision(r, x, y) && (x <= y ==> OnCircle(r, x, y))
      invariant Octant(r, rows) && (x > y ==> Excess(r, x, x) >= x)
      invariant Snapshot(s) == PlottedAll(old(Snapshot(s)), Ring(cx, cy, rows), c)
      decreases y - x
    {
      DrawEight(s, cx, cy, x, y, c);
      CircleStep(r, x, y);
      RingMore(cx, cy, rows, y, old(Snapshot(s)), c);
      rows := rows + [y];
      y, d := NextRow(x, y, d);
      x := x + 1;
    }
  }

  method NextRow(x: int, y: int, d: int) returns (y': int, d': int)
    ensures y' == if d < 0 then y else y - 1
    ensures d' == if d < 0 then d + 4 * x + 6 else d + 4 * (x - y) + 10
  {
    if d < 0 {
      y', d' := y, d + 4 * x + 6;
    } else {
      y', d' := y - 1, d + 4 * (x - y) + 10;
    }
  }

  lemma RingMore(cx: int, cy: int, rows: seq<int>, y: int, im: Image, c: Argb)
    ensures PlottedAll(im, Ring(cx, cy, rows + [y]), c)
         == PlottedAll(PlottedAll(im, Ring(cx, cy, rows), c), Eight(cx, cy, |rows|, y), c)
  {
    assert (rows + [y])[..|rows|] == rows;
    PlottedConcat(im, Ring(cx, cy, rows), Eight(cx, cy, |rows|, y), c);
  }
}
