/** Drawing a straight brush stroke. */
module Line {
  import opened Numbers

  datatype Point = Point(x: int, y: int)

  function Abs(n: int): nat {
    if n < 0 then -n else n
  }

  function Max(a: nat, b: nat): nat {
    if a < b then b else a
  }

  /** a steps of b out of c, to the nearest whole number, halves upward. */
  function Nearest(a: nat, b: nat, c: nat): nat
    requires c > 0
  {
    (2 * Times(a, b) + c) / (2 * c)
  }

  /** The steps made along both axes after n points of a line that spans dx and dy. */
  function Steps(dx: nat, dy: nat, n: nat): (nat, nat) {
    if dx == 0 && dy == 0 then (0, 0)
    else if dx >= dy then (n, Nearest(n, dy, dx))
    else (Nearest(n, dx, dy), n)
  }

  function Toward(from: int, dest: int, steps: nat): int {
    if from < dest then from + steps else from - steps
  }

  /** Point n of the line. */
  function LinePoint(start: Point, end: Point, n: nat): Point {
    var (a, b) := Steps(Abs(end.x - start.x), Abs(end.y - start.y), n);
    Point(Toward(start.x, end.x, a), Toward(start.y, end.y, b))
  }

  function Length(start: Point, end: Point): nat {
    Max(Abs(end.x - start.x), Abs(end.y - start.y))
  }

  function LinePoints(start: Point, end: Point, n: nat): (r: seq<Point>)
    ensures |r| == n
  {
    seq(n, i requires i >= 0 => LinePoint(start, end, i))
  }

  // ---------------------------------------------------------------- the ideal line

  /** The nearest whole number is the only one within a half, upper half included. */
  lemma NearestIs(a: nat, b: nat, c: nat, q: nat)
    requires c > 0
    ensures q == Nearest(a, b, c) <==> 0 < 2 * (Times(q, c) - Times(a, b)) + c <= 2 * c
  {
    var n := 2 * Times(a, b) + c;
    var p := Nearest(a, b, c);
    assert n == (2 * c) * p + n % (2 * c);
    assert (2 * c) * p == 2 * Times(p, c);
    if q > p {
      TimesAtMost(p + 1, q, c);
      TimesNext(p, c);
    } else if q < p {
      TimesAtMost(q + 1, p, c);
      TimesNext(q, c);
    }
  }

  /** Every point lies within half a pixel of the ideal line. */
  lemma WithinHalf(dx: nat, dy: nat, n: nat)
    ensures var (a, b) := Steps(dx, dy, n); 2 * Abs(Times(b, dx) - Times(a, dy)) <= Max(dx, dy)
  {
    hide Times, Nearest;
    if dx == 0 && dy == 0 {
      TimesZero(dx);
    } else if dx >= dy {
      NearestIs(n, dy, dx, Nearest(n, dy, dx));
    } else {
      NearestIs(n, dx, dy, Nearest(n, dx, dy));
    }
  }

  /** The line starts and ends at its end points. */
  lemma EndPoints(start: Point, end: Point)
    ensures LinePoint(start, end, 0) == start && LinePoint(start, end, Length(start, end)) == end
  {
    hide Times, Nearest;
    var dx, dy := Abs(end.x - start.x), Abs(end.y - start.y);
    if dx >= dy && dx > 0 {
      TimesZero(dy);
      TimesZero(dx);
      TimesSwap(dx, dy);
      NearestIs(0, dy, dx, 0);
      NearestIs(dx, dy, dx, dy);
    } else if dy > 0 {
      TimesZero(dy);
      TimesZero(dx);
      TimesSwap(dx, dy);
      NearestIs(0, dx, dy, 0);
      NearestIs(dy, dx, dy, dx);
    }
  }

  /** From one point to the next each axis moves by at most one, and one of them always does; so no
      point overshoots the end on either axis. */
  lemma NextPoint(dx: nat, dy: nat, n: nat)
    requires n < Max(dx, dy)
    ensures var (a, b) := Steps(dx, dy, n); var (a', b') := Steps(dx, dy, n + 1);
            a <= a' <= a + 1 && b <= b' <= b + 1 && (a' == a + 1 || b' == b + 1)
  {
    hide Times;
    if dx >= dy {
      NearestNext(n, dy, dx);
    } else {
      NearestNext(n, dx, dy);
    }
  }

  lemma NearestNext(n: nat, b: nat, c: nat)
    requires b <= c && c > 0
    ensures Nearest(n, b, c) <= Nearest(n + 1, b, c) <= Nearest(n, b, c) + 1
  {
    hide Times;
    var p, q := Nearest(n, b, c), Nearest(n + 1, b, c);
    NearestIs(n, b, c, p);
    NearestIs(n + 1, b, c, q);
    TimesNext(n, b);
    TimesNext(p, c);
    if q > p + 1 {
      TimesAtMost(p + 2, q, c);
      TimesNext(p + 1, c);
    } else if q < p {
      TimesAtMost(q + 1, p, c);
      TimesNext(q, c);
    }
  }

  lemma {:induction false} NoOvershoot(dx: nat, dy: nat, n: nat)
    requires n <= Max(dx, dy)
    ensures Steps(dx, dy, n).0 <= dx && Steps(dx, dy, n).1 <= dy
    decreases Max(dx, dy) - n
  {
    hide Times, Nearest;
    if n == Max(dx, dy) {
      EndPoints(Point(0, 0), Point(dx, dy));
    } else {
      NoOvershoot(dx, dy, n + 1);
      NextPoint(dx, dy, n);
    }
  }

  // ---------------------------------------------------------------- one step of the error term

  /** The decision the error term makes: whether to step along x, and along y. */
  predicate StepsX(err: int, dy: nat) {
    2 * err + dy >= 0
  }

  predicate StepsY(err: int, dx: nat) {
    2 * err <= dx
  }

  /** The error term after a and b steps. */
  predicate ErrorTerm(dx: nat, dy: nat, a: nat, b: nat, err: int) {
    err == Times(b + 1, dx) - Times(a + 1, dy)
  }

  lemma ErrorStep(dx: nat, dy: nat, n: nat, err: int)
    requires n < Max(dx, dy)
    requires ErrorTerm(dx, dy, Steps(dx, dy, n).0, Steps(dx, dy, n).1, err)
    ensures Steps(dx, dy, n + 1).0 == Steps(dx, dy, n).0 + if StepsX(err, dy) then 1 else 0
    ensures Steps(dx, dy, n + 1).1 == Steps(dx, dy, n).1 + if StepsY(err, dx) then 1 else 0
    ensures ErrorTerm(dx, dy, Steps(dx, dy, n + 1).0, Steps(dx, dy, n + 1).1,
              err - (if StepsX(err, dy) then dy else 0) + (if StepsY(err, dx) then dx else 0))
  {
    hide Times, Nearest;
    var (a, b) := Steps(dx, dy, n);
    TimesNext(a, dy);
    TimesNext(a + 1, dy);
    TimesNext(b, dx);
    TimesNext(b + 1, dx);
    if dx >= dy {
      NearestIs(n, dy, dx, b);
      NearestIs(n + 1, dy, dx, b + if StepsY(err, dx) then 1 else 0);
    } else {
      NearestIs(n, dx, dy, a);
      NearestIs(n + 1, dx, dy, a + if StepsX(err, dy) then 1 else 0);
    }
  }

  // ---------------------------------------------------------------- the canvas

  predicate InDisc(dx: int, dy: int, r: nat) {
    dx * dx + dy * dy <= r * r
  }

  lemma DiscIsBounded(dx: int, dy: int, r: nat)
    ensures InDisc(dx, dy, r) ==> Abs(dx) <= r && Abs(dy) <= r
  {
    if Abs(dx) > r {
      SquareBeyond(dx, dy, r);
    } else if Abs(dy) > r {
      SquareBeyond(dy, dx, r);
    }
  }

  lemma SquareBeyond(a: int, b: int, r: nat)
    requires Abs(a) > r
    ensures a * a + b * b > r * r
  {
    var c := Abs(a) - r;
    assert a * a == Abs(a) * Abs(a) == (r + c) * (r + c);
    assert (r + c) * (r + c) == r * r + 2 * (r * c) + c * c;
    assert r * c >= 0 && c * c >= 1 && b * b >= 0;
  }

  /** A pixel under the brush at one of the points. */
  ghost predicate Brushed(points: seq<Point>, x: int, y: int, r: nat) {
    exists i :: 0 <= i < |points| && InDisc(x - points[i].x, y - points[i].y, r)
  }

  class Canvas {
    const width: nat
    const height: nat
    /** Rows of pixels. */
    const pixels: array2<nat>
    var brush: nat
    var radius: nat
    var dirty: bool

    ghost predicate Valid()
      reads this
    {
      pixels.Length0 == height && pixels.Length1 == width
    }

    method PaintPixel(x: int, y: int, colour: nat)
      requires Valid()
      modifies pixels
      ensures forall v, u :: 0 <= v < height && 0 <= u < width ==>
        pixels[v, u] == if u == x && v == y then colour else old(pixels[v, u])
    {
      if x < 0 || y < 0 || x >= width || y >= height {
        return;
      }
      pixels[y, x] := colour;
    }

    /** One row of the brush. */
    method PaintBrushRow(x: int, y: int, dy: int)
      requires Valid() && -(radius as int) <= dy <= radius
      modifies pixels
      ensures forall v, u :: 0 <= v < height && 0 <= u < width ==>
        pixels[v, u] == if v == y + dy && InDisc(u - x, dy, radius) then brush else old(pixels[v, u])
    {
      hide InDisc;
      var dx: int := -(radius as int);
      while dx <= radius
        modifies pixels
        invariant -(radius as int) <= dx <= radius + 1
        invariant forall v, u :: 0 <= v < height && 0 <= u < width ==>
          pixels[v, u] == if v == y + dy && -(radius as int) <= u - x < dx && InDisc(u - x, dy, radius) then brush
              else old(pixels[v, u])
      {
        if dx * dx + dy * dy <= radius * radius {
          DiscTest(dx, dy, radius);
          PaintPixel(x + dx, y + dy, brush);
        } else {
          DiscTest(dx, dy, radius);
        }
        dx := dx + 1;
      }
      forall v, u | 0 <= v < height && 0 <= u < width
        ensures pixels[v, u] == if v == y + dy && InDisc(u - x, dy, radius) then brush else old(pixels[v, u])
      {
        DiscIsBounded(u - x, dy, radius);
      }
    }

    /** Paints exactly the pixels of the canvas in the disc around a point. */
    method PaintBrush(x: int, y: int)
      requires Valid()
      modifies this`dirty, pixels
      ensures dirty
      ensures forall v, u :: 0 <= v < height && 0 <= u < width ==>
        pixels[v, u] == if InDisc(u - x, v - y, radius) then brush else old(pixels[v, u])
    {
      hide InDisc;
      var dy: int := -(radius as int);
      while dy <= radius
        modifies pixels
        invariant -(radius as int) <= dy <= radius + 1
        invariant forall v, u :: 0 <= v < height && 0 <= u < width ==>
          pixels[v, u] == if -(radius as int) <= v - y < dy && InDisc(u - x, v - y, radius) then brush
              else old(pixels[v, u])
      {
        PaintBrushRow(x, y, dy);
        dy := dy + 1;
      }
      forall v, u | 0 <= v < height && 0 <= u < width
        ensures pixels[v, u] == if InDisc(u - x, v - y, radius) then brush else old(pixels[v, u])
      {
        DiscIsBounded(u - x, v - y, radius);
      }
      dirty := true;
    }

    /** Draws the whole line: the points visited are those of the line, and the pixels painted those
        under the brush at one of them. */
    method PaintLine(start: Point, end: Point) returns (ghost visited: seq<Point>)
      requires Valid()
      modifies this`dirty, pixels
      ensures visited == LinePoints(start, end, Length(start, end) + 1)
      ensures forall v, u :: 0 <= v < height && 0 <= u < width ==>
        pixels[v, u] == if Brushed(LinePoints(start, end, Length(start, end) + 1), u, v, radius) then brush
            else old(pixels[v, u])
    {
      hide Steps, InDisc, StepsX, StepsY, ErrorTerm, Brushed, Toward;
      var x0, y0 := start.x, start.y;
      var dx := Abs(end.x - start.x);
      var sx := if start.x < end.x then 1 else -1;
      ghost var rise := Abs(end.y - start.y);
      var dy: int := -(Abs(end.y - start.y) as int);
      var sy := if start.y < end.y then 1 else -1;
      var err: int := dx + dy;
      ghost var n: nat := 0;
      visited := [];
      StartOfLine(start, end);
      NotBrushed(radius);
      while true
        modifies this`dirty, pixels
        invariant n <= Max(dx, rise) && Point(x0, y0) == LinePoint(start, end, n)
        invariant ErrorTerm(dx, rise, Steps(dx, rise, n).0, Steps(dx, rise, n).1, err)
        invariant visited == LinePoints(start, end, n)
        invariant forall v, u :: 0 <= v < height && 0 <= u < width ==>
          pixels[v, u] == if Brushed(visited, u, v, radius) then brush else old(pixels[v, u])
        decreases Max(dx, rise) - n
      {
        PaintBrush(x0, y0);
        forall u: int, v: int
          ensures Brushed(visited + [Point(x0, y0)], u, v, radius)
            <==> Brushed(visited, u, v, radius) || InDisc(u - x0, v - y0, radius)
        {
          BrushedNext(visited, Point(x0, y0), u, v, radius);
        }
        visited := visited + [Point(x0, y0)];
        OnlyLastIsEnd(start, end, n);
        if x0 == end.x && y0 == end.y {
          break;
        }
        ErrorStep(dx, rise, n, err);
        AdvanceX(start.x, end.x, Steps(dx, rise, n).0);
        AdvanceX(start.y, end.y, Steps(dx, rise, n).1);
        var e2 := err * 2;
        Decide(err, dx, rise);
        if e2 >= dy {
          err := err + dy;
          x0 := x0 + sx;
        }
        if e2 <= dx {
          err := err + dx;
          y0 := y0 + sy;
        }
        n := n + 1;
      }
    }
  }

  lemma DiscTest(dx: int, dy: int, r: nat)
    ensures InDisc(dx, dy, r) <==> dx * dx + dy * dy <= r * r
  {}

  lemma Decide(err: int, dx: nat, dy: nat)
    ensures StepsX(err, dy) <==> err * 2 + dy >= 0
    ensures StepsY(err, dx) <==> err * 2 <= dx
  {}

  lemma AdvanceX(from: int, dest: int, a: nat)
    ensures Toward(from, dest, a + 1) == Toward(from, dest, a) + if from < dest then 1 else -1
  {}

  lemma StartOfLine(start: Point, end: Point)
    ensures LinePoint(start, end, 0) == start
    ensures var dx, dy := Abs(end.x - start.x), Abs(end.y - start.y);
            ErrorTerm(dx, dy, Steps(dx, dy, 0).0, Steps(dx, dy, 0).1, dx - dy)
  {
    EndPoints(start, end);
    var dx, dy := Abs(end.x - start.x), Abs(end.y - start.y);
    assert Steps(dx, dy, 0) == (0, 0);
    assert Times(1, dx) == dx && Times(1, dy) == dy;
  }

  /** The end is reached at the last point and not before. */
  lemma OnlyLastIsEnd(start: Point, end: Point, n: nat)
    requires n <= Length(start, end)
    ensures LinePoint(start, end, n) == end <==> n == Length(start, end)
  {
    hide Times, Nearest;
    EndPoints(start, end);
  }

  lemma NotBrushed(r: nat)
    ensures forall x, y :: !Brushed([], x, y, r)
  {}

  lemma BrushedNext(points: seq<Point>, p: Point, x: int, y: int, r: nat)
    ensures Brushed(points + [p], x, y, r) <==> Brushed(points, x, y, r) || InDisc(x - p.x, y - p.y, r)
  {
    hide InDisc;
    var more := points + [p];
    assert more[|points|] == p;
    assert forall i :: 0 <= i < |points| ==> more[i] == points[i];
  }
}
