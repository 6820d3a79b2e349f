/// The line routine: an incremental error term against the closed form it
/// computes, "round the ideal line to the nearest pixel, halves downwards".
module BresenhamLine {
  import opened Framebuffer

  datatype Point = Point(x: int, y: int)

  /** k * minor / major rounded to the nearest integer, halves downwards. */
  function Rounded(k: int, minor: int, major: int): int
    requires major > 0
  {
    (k * minor + (major - 1) / 2) / major
  }

  /** How far along an axis of length `length` the k-th pixel of a walk of `steps` steps is. */
  function Reach(k: int, length: int, steps: int): int
    requires 0 <= length <= steps && 0 <= k <= steps
  {
    if length == steps then k else Rounded(k, length, steps)
  }

  /** A segment running down the screen, as the source orders its endpoints. */
  datatype Segment = Segment(x1: int, y1: int, x2: int, y2: int) {

    predicate Ordered() { y1 <= y2 }

    function Dx(): int { Abs(x2 - x1) }

    function Dy(): int { y2 - y1 }

    function Steps(): int { Max(Dx(), Dy()) }

    /** The column i pixels from the first endpoint towards the second. */
    function Column(i: int): int { if x1 < x2 then x1 + i else x1 - i }

    /** The k-th pixel: the longer axis advances by k, the other by the rounded proportion. */
    function Pixel(k: int): Point
      requires Ordered() && 0 <= k <= Steps()
    {
      Point(Column(Reach(k, Dx(), Steps())), y1 + Reach(k, Dy(), Steps()))
    }

    /** The number of the pixel of the segment that p could be. */
    function Number(p: Point): int {
      if Dx() > Dy() then (if x1 < x2 then p.x - x1 else x1 - p.x) else p.y - y1
    }

    /** p is one of the first n pixels of the segment. */
    predicate Visits(p: Point, n: int)
      requires Ordered() && n <= Steps() + 1
    {
      0 <= Number(p) < n && p == Pixel(Number(p))
    }

    /** p is a pixel of the segment. */
    predicate Covers(p: Point)
      requires Ordered()
    {
      Visits(p, Steps() + 1)
    }
  }

  /** The endpoint swap at the top of the source. */
  function Downward(x1: int, y1: int, x2: int, y2: int): (s: Segment)
    ensures s.Ordered()
  {
    if y1 > y2 then Segment(x2, y2, x1, y1) else Segment(x1, y1, x2, y2)
  }

  lemma DivisionIsUnique(n: int, d: int, q: int)
    requires d > 0 && q * d <= n < (q + 1) * d
    ensures n / d == q
  {
    var r := n / d;
    assert r * d <= n < (r + 1) * d;
    assert r + 1 <= q ==> (r + 1) * d <= q * d;
    assert q + 1 <= r ==> (q + 1) * d <= r * d;
  }

  /** The bounds of the error term pin the minor coordinate j down. */
  lemma ErrorPinsMinor(k: int, j: int, minor: int, major: int)
    requires major > 0
    requires 0 <= major / 2 - k * minor + j * major < major
    ensures j == Rounded(k, minor, major)
  {
    assert (j + 1) * major == j * major + major;
    DivisionIsUnique(k * minor + (major - 1) / 2, major, j);
  }

  /** A walk starts at 0 and ends at the full length of the axis. */
  lemma ReachEnds(length: int, steps: int)
    requires 0 <= length <= steps
    ensures Reach(0, length, steps) == 0 && Reach(steps, length, steps) == length
  {
    if length < steps {
      assert (length + 1) * steps == length * steps + steps;
      DivisionIsUnique(steps * length + (steps - 1) / 2, steps, length);
      DivisionIsUnique((steps - 1) / 2, steps, 0);
    }
  }

  /** The error term after i moves across and j moves down. */
  function Error(dx: int, dy: int, i: int, j: int): int {
    (if dx > dy then dx / 2 else -(dy / 2)) - i * dy + j * dx
  }

  /** Between iterations the error term stays within one length of the major axis. */
  predicate ErrorInRange(dx: int, dy: int, err: int) {
    if dx > dy then 0 <= err < dx else dy == 0 || -dy < err <= 0
  }

  /** After k iterations the walk is i across and j down with error term err. */
  predicate AtStep(dx: int, dy: int, k: int, i: int, j: int, err: int)
    requires 0 <= dx && 0 <= dy && 0 <= k <= Max(dx, dy)
  {
    && i == Reach(k, dx, Max(dx, dy))
    && j == Reach(k, dy, Max(dx, dy))
    && err == Error(dx, dy, i, j)
    && ErrorInRange(dx, dy, err)
  }

  lemma FirstStep(dx: int, dy: int)
    requires 0 <= dx && 0 <= dy
    ensures AtStep(dx, dy, 0, 0, 0, if dx > dy then dx / 2 else -(dy / 2))
  {
    ReachEnds(dx, Max(dx, dy));
    ReachEnds(dy, Max(dx, dy));
  }

  /** One iteration moves the major axis by exactly one and keeps the error in range. */
  lemma NextStep(dx: int, dy: int, k: int, i: int, j: int, err: int)
    requires 0 <= dx && 0 <= dy && 0 <= k < Max(dx, dy) && AtStep(dx, dy, k, i, j, err)
    ensures var i' := if err > -dx then i + 1 else i;
            var j' := if err < dy then j + 1 else j;
            AtStep(dx, dy, k + 1, i', j', Error(dx, dy, i', j'))
  {
    var i' := if err > -dx then i + 1 else i;
    var j' := if err < dy then j + 1 else j;
    ErrorMoves(dx, dy, i, j);
    assert ErrorInRange(dx, dy, Error(dx, dy, i', j'));
    if dx > dy {
      ErrorPinsMinor(k + 1, j', dy, dx);
    } else if dx < dy {
      ErrorPinsMinor(k + 1, i', dx, dy);
    }
  }

  /** The source's incremental updates of the error term. */
  lemma ErrorMoves(dx: int, dy: int, i: int, j: int)
    ensures Error(dx, dy, i + 1, j) == Error(dx, dy, i, j) - dy
    ensures Error(dx, dy, i, j + 1) == Error(dx, dy, i, j) + dx
    ensures Error(dx, dy, i + 1, j + 1) == Error(dx, dy, i, j) - dy + dx
  {
    assert (i + 1) * dy == i * dy + dy;
    assert (j + 1) * dx == j * dx + dx;
  }

  /** Walking one pixel further adds exactly that pixel. */
  lemma VisitsOneMore(s: Segment, k: int, p: Point)
    requires s.Ordered() && 0 <= k <= s.Steps()
    ensures s.Visits(p, k + 1) <==> s.Visits(p, k) || p == s.Pixel(k)
  {
    assert s.Number(s.Pixel(k)) == k;
  }

  /** The walk stands on the second endpoint after exactly Steps() iterations. */
  lemma StopsExactlyAtTheEnd(s: Segment, k: int)
    requires s.Ordered() && 0 <= k <= s.Steps()
    ensures s.Pixel(k) == Point(s.x2, s.y2) <==> k == s.Steps()
  {
    ReachEnds(s.Dx(), s.Steps());
    ReachEnds(s.Dy(), s.Steps());
    assert s.Number(s.Pixel(k)) == k;
  }

  method Line(canvas: Canvas, startX: int, startY: int, endX: int, endY: int)
    requires canvas.Valid()
    modifies canvas`view, canvas.data
    ensures canvas.Valid()
    ensures forall px, py | OnScreen(px, py) ::
              canvas.view(px, py)
              == (if canvas.Dc0() != 0 && Downward(startX, startY, endX, endY).Covers(Point(px, py))
                  then Ink(canvas.Dc0()) else old(canvas.view)(px, py))
  {
    var dc0 := canvas.Dc0();
    if dc0 == 0 {
      return;
    }
    var x1, y1, x2, y2 := startX, startY, endX, endY;
    if y1 > y2 {
      x1, x2 := x2, x1;
      y1, y2 := y2, y1;
    }
    Walk(canvas, Ink(dc0), Segment(x1, y1, x2, y2));
  }

  /** `now` is `was` with the first n pixels of the segment painted. */
  ghost predicate Painted(now: Picture, was: Picture, s: Segment, n: int, color: Color)
    requires s.Ordered() && n <= s.Steps() + 1
  {
    forall px, py | OnScreen(px, py) ::
      now(px, py) == (if s.Visits(Point(px, py), n) then color else was(px, py))
  }

  /** Where the walk stands after k iterations. */
  lemma StandsOn(s: Segment, k: int, i: int, j: int, err: int)
    requires s.Ordered() && 0 <= k <= s.Steps() && AtStep(s.Dx(), s.Dy(), k, i, j, err)
    ensures s.Pixel(k) == Point(s.Column(i), s.y1 + j) && err == Error(s.Dx(), s.Dy(), i, j)
  {
    hide Rounded;
  }

  lemma PaintedNothing(was: Picture, s: Segment, color: Color)
    requires s.Ordered()
    ensures Painted(was, was, s, 0, color)
  {
  }

  lemma PaintedAll(now: Picture, was: Picture, s: Segment, color: Color)
    requires s.Ordered() && Painted(now, was, s, s.Steps() + 1, color)
    ensures forall px, py | OnScreen(px, py) ::
              now(px, py) == (if s.Covers(Point(px, py)) then color else was(px, py))
  {
  }

  lemma PaintOneMore(now: Picture, before: Picture, was: Picture, s: Segment, k: int, x: int, y: int, color: Color)
    requires s.Ordered() && 0 <= k <= s.Steps() && Painted(before, was, s, k, color)
    requires Point(x, y) == s.Pixel(k)
    requires forall px, py | OnScreen(px, py) ::
               now(px, py) == (if px == x && py == y then color else before(px, py))
    ensures Painted(now, was, s, k + 1, color)
  {
    forall px, py | OnScreen(px, py)
      ensures now(px, py) == (if s.Visits(Point(px, py), k + 1) then color else was(px, py))
    {
      VisitsOneMore(s, k, Point(px, py));
    }
  }

  /** The loop, from the first endpoint of a downward segment to the second. */
  method Walk(canvas: Canvas, color: Color, s: Segment)
    requires canvas.Valid() && s.Ordered()
    modifies canvas`view, canvas.data
    ensures canvas.Valid()
    ensures forall px, py | OnScreen(px, py) ::
              canvas.view(px, py) == (if s.Covers(Point(px, py)) then color else old(canvas.view)(px, py))
  {
    hide Rounded, Painted, Segment.Visits, Segment.Pixel, AtStep, Error;
    PaintedNothing(canvas.view, s, color);
    var x1, y1 := s.x1, s.y1;
    var dx, sx := Abs(s.x2 - x1), if x1 < s.x2 then 1 else -1;
    var dy := s.y2 - y1;
    var err := if dx > dy then dx / 2 else -(dy / 2);
    ghost var k, i, j := 0, 0, 0;
    ghost var was := canvas.view;
    FirstStep(dx, dy);

    while true
      invariant canvas.Valid() && 0 <= k <= s.Steps() && AtStep(dx, dy, k, i, j, err)
      invariant x1 == s.Column(i) && y1 == s.y1 + j
      invariant Painted(canvas.view, was, s, k, color)
      decreases s.Steps() - k
    {
      ghost var before := canvas.view;
      StandsOn(s, k, i, j, err);
      canvas.DrawPointUnclipped(color, x1, y1);
      PaintOneMore(canvas.view, before, was, s, k, x1, y1, color);
      StopsExactlyAtTheEnd(s, k);
      if x1 == s.x2 && y1 == s.y2 {
        break;
      }
      NextStep(dx, dy, k, i, j, err);
      ErrorMoves(dx, dy, i, j);
      var e2 := err;
      if e2 > -dx {
        err := err - dy;
        x1 := x1 + sx;
        i := i + 1;
      }
      if e2 < dy {
        err := err + dx;
        y1 := y1 + 1;
        j := j + 1;
      }
      k := k + 1;
    }
    PaintedAll(canvas.view, was, s, color);
  }

  /** Swapping the endpoints paints the same pixels. */
  lemma SwapPaintsTheSame(x1: int, y1: int, x2: int, y2: int, p: Point)
    ensures Downward(x1, y1, x2, y2).Covers(p) <==> Downward(x2, y2, x1, y1).Covers(p)
  {
    hide Rounded;
    var s, t := Downward(x1, y1, x2, y2), Downward(x2, y2, x1, y1);
    if y1 == y2 {
      forall k | 0 <= k <= s.Steps()
        ensures Reach(k, 0, s.Steps()) == 0
      {
        FlatReach(k, s.Steps());
      }
    }
  }

  lemma FlatReach(k: int, steps: int)
    requires 0 <= k <= steps
    ensures Reach(k, 0, steps) == 0
  {
    if steps > 0 {
      DivisionIsUnique((steps - 1) / 2, steps, 0);
    }
  }

  /** Exactly max(dx, dy) + 1 different pixels are painted: the k-th pixels, all distinct. */
  lemma PixelsAreNumbered(s: Segment, k: int)
    requires s.Ordered() && 0 <= k <= s.Steps()
    ensures s.Covers(s.Pixel(k)) && s.Number(s.Pixel(k)) == k
  {
  }

  lemma CoveredIsNumbered(s: Segment, p: Point)
    requires s.Ordered()
    ensures s.Covers(p) <==> exists k | 0 <= k <= s.Steps() :: p == s.Pixel(k)
  {
    if k :| 0 <= k <= s.Steps() && p == s.Pixel(k) {
      PixelsAreNumbered(s, k);
    }
  }

  /** Rounding is to the nearest integer: the painted pixel is the only one less than half a
      pixel from the ideal line, or half a pixel above it. */
  lemma WithinHalfAPixel(k: int, minor: int, major: int, j: int)
    requires major > 0
    ensures j == Rounded(k, minor, major) <==> -major <= 2 * (j * major - k * minor) < major
  {
    assert (j + 1) * major == j * major + major;
    if -major <= 2 * (j * major - k * minor) < major {
      DivisionIsUnique(k * minor + (major - 1) / 2, major, j);
    }
  }

  /** The walk is connected and never turns back: each step moves the major axis by one and the
      minor one by nothing or one. */
  lemma WalkIsConnected(s: Segment, k: int)
    requires s.Ordered() && 0 <= k < s.Steps()
    ensures var i, i' := Reach(k, s.Dx(), s.Steps()), Reach(k + 1, s.Dx(), s.Steps());
            var j, j' := Reach(k, s.Dy(), s.Steps()), Reach(k + 1, s.Dy(), s.Steps());
            && i <= i' <= i + 1 && j <= j' <= j + 1 && (i' == i + 1 || j' == j + 1)
  {
    ReachMoves(k, s.Dx(), s.Steps());
    ReachMoves(k, s.Dy(), s.Steps());
  }

  lemma ReachMoves(k: int, length: int, steps: int)
    requires 0 <= length <= steps && 0 <= k < steps
    ensures Reach(k, length, steps) <= Reach(k + 1, length, steps) <= Reach(k, length, steps) + 1
  {
    if length < steps {
      var n := k * length + (steps - 1) / 2;
      assert (k + 1) * length + (steps - 1) / 2 == n + length;
      QuotientMoves(n, length, steps);
    }
  }

  lemma QuotientMoves(n: int, more: int, d: int)
    requires 0 <= more < d
    ensures n / d <= (n + more) / d <= n / d + 1
  {
    var q := n / d;
    assert q * d <= n < q * d + d;
    DivisionIsUnique(n + more, d, if n + more < q * d + d then q else q + 1);
  }

  /** No overshoot: every painted pixel lies in the rectangle the two endpoints span, and both
      endpoints are painted. */
  lemma StaysBetweenEndpoints(s: Segment, k: int)
    requires s.Ordered() && 0 <= k <= s.Steps()
    ensures 0 <= Reach(k, s.Dx(), s.Steps()) <= s.Dx()
    ensures 0 <= Reach(k, s.Dy(), s.Steps()) <= s.Dy()
    ensures s.Pixel(0) == Point(s.x1, s.y1) && s.Pixel(s.Steps()) == Point(s.x2, s.y2)
  {
    ReachEnds(s.Dx(), s.Steps());
    ReachEnds(s.Dy(), s.Steps());
    ReachIsMonotone(k, s.Dx(), s.Steps());
    ReachIsMonotone(k, s.Dy(), s.Steps());
  }

  lemma ReachIsMonotone(k: int, length: int, steps: int)
    requires 0 <= length <= steps && 0 <= k <= steps
    ensures Reach(0, length, steps) <= Reach(k, length, steps) <= Reach(steps, length, steps)
    decreases k
  {
    var n := 0;
    while n < k
      invariant 0 <= n <= k && Reach(0, length, steps) <= Reach(n, length, steps)
    {
      ReachMoves(n, length, steps);
      n := n + 1;
    }
    while n < steps
      invariant k <= n <= steps && Reach(k, length, steps) <= Reach(n, length, steps)
    {
      ReachMoves(n, length, steps);
      n := n + 1;
    }
  }

  // The line of two endpoints

  /** (px, py) is a pixel of the line from (x1, y1) down to (x2, y2): in the rectangle they span, and on
      the shorter axis the nearest to the ideal line, halves downwards. */
  predicate Ideal(x1: int, y1: int, x2: int, y2: int, px: int, py: int)
    requires y1 <= y2
  {
    var dx, dy := if x1 < x2 then x2 - x1 else x1 - x2, y2 - y1;
    var i, j := if x1 < x2 then px - x1 else x1 - px, py - y1;
    && 0 <= i <= dx && 0 <= j <= dy
    && (dx > dy ==> -dx <= 2 * (j * dx - i * dy) < dx)
    && (dx < dy ==> -dy <= 2 * (i * dy - j * dx) < dy)
    && (dx == dy ==> i == j)
  }

  lemma SegmentIsIdeal(s: Segment, p: Point)
    requires s.Ordered()
    ensures s.Covers(p) <==> Ideal(s.x1, s.y1, s.x2, s.y2, p.x, p.y)
  {
    hide Rounded;
    var dx, dy, n, steps := s.Dx(), s.Dy(), s.Number(p), s.Steps();
    if 0 <= n <= steps {
      StaysBetweenEndpoints(s, n);
      if dx > dy {
        WithinHalfAPixel(n, dy, dx, p.y - s.y1);
      } else if dx < dy {
        WithinHalfAPixel(n, dx, dy, if s.x1 < s.x2 then p.x - s.x1 else s.x1 - p.x);
      }
    }
  }

  /** The line routine paints exactly the pixels of the line from the upper of its two endpoints to the
      lower. */
  lemma LineIsIdeal(startX: int, startY: int, endX: int, endY: int, p: Point)
    ensures Downward(startX, startY, endX, endY).Covers(p)
       <==> if startY <= endY then Ideal(startX, startY, endX, endY, p.x, p.y)
            else Ideal(endX, endY, startX, startY, p.x, p.y)
  {
    hide Ideal, Segment.Covers;
    SegmentIsIdeal(Downward(startX, startY, endX, endY), p);
  }

  /** Both endpoints of the call are painted, and nothing outside the rectangle they span. */
  lemma LineSpansItsEndpoints(startX: int, startY: int, endX: int, endY: int, p: Point)
    ensures var s := Downward(startX, startY, endX, endY);
            && s.Covers(Point(startX, startY)) && s.Covers(Point(endX, endY))
            && (s.Covers(p) ==>
                  && Min(startX, endX) <= p.x <= Max(startX, endX)
                  && Min(startY, endY) <= p.y <= Max(startY, endY))
  {
    hide Segment.Covers, Downward;
    LineIsIdeal(startX, startY, endX, endY, Point(startX, startY));
    LineIsIdeal(startX, startY, endX, endY, Point(endX, endY));
    LineIsIdeal(startX, startY, endX, endY, p);
    ProductsSwap(endX - startX, endY - startY);
  }

  lemma ProductsSwap(a: int, b: int)
    ensures a * b == b * a && (-a) * b == -(a * b) && a * (-b) == -(a * b) && (-a) * (-b) == a * b
  {
  }

  /** Twice the distance of a painted pixel from the line through the endpoints, along the shorter axis
      and in units of the longer one, is at most that one. */
  lemma LineStaysNear(startX: int, startY: int, endX: int, endY: int, p: Point)
    requires Downward(startX, startY, endX, endY).Covers(p)
    ensures 2 * Abs((p.x - startX) * (endY - startY) - (p.y - startY) * (endX - startX))
         <= Max(Abs(endX - startX), Abs(endY - startY))
  {
    LineIsIdeal(startX, startY, endX, endY, p);
    if startY <= endY {
      IdealStaysNear(startX, startY, endX, endY, p.x, p.y);
    } else {
      IdealStaysNear(endX, endY, startX, startY, p.x, p.y);
      SameCross(p.x, p.y, startX, startY, endX, endY);
    }
  }

  lemma IdealStaysNear(x1: int, y1: int, x2: int, y2: int, px: int, py: int)
    requires y1 <= y2 && Ideal(x1, y1, x2, y2, px, py)
    ensures 2 * Abs((px - x1) * (y2 - y1) - (py - y1) * (x2 - x1)) <= Max(Abs(x2 - x1), y2 - y1)
  {
    ProductsSwap(px - x1, y2 - y1);
    ProductsSwap(py - y1, x2 - x1);
  }

  lemma SameCross(px: int, py: int, x1: int, y1: int, x2: int, y2: int)
    ensures (px - x1) * (y2 - y1) - (py - y1) * (x2 - x1) == -((px - x2) * (y1 - y2) - (py - y2) * (x1 - x2))
  {
  }

  /** One pixel for every column, if the line is at least as wide as high, and else for every row. */
  lemma OnePixelOfEach(startX: int, startY: int, endX: int, endY: int, c: int) returns (p: Point)
    requires var wide := Abs(endX - startX) >= Abs(endY - startY);
             if wide then Min(startX, endX) <= c <= Max(startX, endX) else Min(startY, endY) <= c <= Max(startY, endY)
    ensures var s, wide := Downward(startX, startY, endX, endY), Abs(endX - startX) >= Abs(endY - startY);
            && s.Covers(p) && c == (if wide then p.x else p.y)
            && forall q: Point | s.Covers(q) && c == (if wide then q.x else q.y) :: q == p
  {
    hide Rounded;
    var s := Downward(startX, startY, endX, endY);
    var wide := Abs(endX - startX) >= Abs(endY - startY);
    var k := if !wide then c - s.y1 else if s.x1 < s.x2 then c - s.x1 else s.x1 - c;
    PixelsAreNumbered(s, k);
    p := s.Pixel(k);
  }
}
