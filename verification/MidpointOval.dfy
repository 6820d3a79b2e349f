/// The oval routine: two loops driven by an incrementally updated error term,
/// against a scan that decides every step by the equation of the ellipse.
module MidpointOval {
  import opened Framebuffer

  /** The remainder of division by two with the sign of n, as C computes it. */
  function CMod2(n: int): int { if n < 0 then -((-n) % 2) else n % 2 }

  /** Half of n rounded towards zero, as C computes it. */
  function CHalf(n: int): int { if n < 0 then -((-n) / 2) else n / 2 }

  function Sq(n: int): int { n * n }

  /** The ellipse inscribed in a box of a+1 by b+1 pixel centres, in doubled coordinates from its
      centre: negative inside, zero on the curve, positive outside. */
  function Ellipse(a: int, b: int, dx: int, dy: int): int {
    Sq(b) * Sq(dx) + Sq(a) * Sq(dy) - Sq(a) * Sq(b)
  }

  /** One pass of a loop: the columns i in from either side of the rows j out from the middle,
      with the spans between them when it fills. */
  datatype Scan = Scan(i: int, j: int, fills: bool)

  /** The bounding box an oval is drawn in. */
  datatype Oval = Oval(x: int, y: int, width: int, height: int) {

    function A(): int { width - 1 }

    function B(): int { height - 1 }

    function Odd(): int { CMod2(B()) }

    /** The height of scan row j above the centre line, in half pixels. */
    function Rise(j: int): int { 2 * j + Odd() }

    function West(i: int): int { x + i }

    function East(i: int): int { x + width - 1 - i }

    function North(j: int): int { y + CHalf(height) + j }

    function South(j: int): int { y + CHalf(height) - Odd() - j }

    /** The ellipse at the corner of scan (i, j).  The last term is zero unless height is an even
        number that is not positive. */
    function At(i: int, j: int): int {
      Ellipse(A(), B(), A() - 2 * i, Rise(j)) + Sq(A()) * (Odd() - Sq(Odd()))
    }

    /** Move a row out: a column further in, this row and the next are inside on average. */
    predicate Up(i: int, j: int) { At(i + 1, j) + At(i + 1, j + 1) <= 0 }

    /** Move a column in: a row further out, this column and the next are outside on average;
        and in any case when there is no move out. */
    predicate In(i: int, j: int) { At(i, j + 1) + At(i + 1, j + 1) >= 0 || !Up(i, j) }

    /** The passes of the first loop from (i, j) on, and then those of the second. */
    function Scans(i: int, j: int, fills: bool): seq<Scan>
      requires j >= 0
      decreases A() - 2 * i, Max(0, Abs(B()) - Rise(j))
    {
      var i' := if In(i, j) then i + 1 else i;
      var j' := if Up(i, j) then j + 1 else j;
      SomeMove(this, i, j);
      [Scan(i, j, fills)] + (if 2 * i' > A() then Tips(i', j') else Scans(i', j', fills))
    }

    /** The second loop: one column back out, for the rows that are still missing. */
    function Tips(i: int, j: int): seq<Scan>
      decreases Max(0, height - Rise(j))
    {
      if Rise(j) >= height then [] else [Scan(i - 1, j, false)] + Tips(i, j + 1)
    }
  }

  lemma SqAtLeast(m: int, n: int)
    requires m >= Abs(n)
    ensures Sq(m) >= Sq(n)
  {
    assert Sq(m) - Sq(n) == (m - n) * (m + n);
  }

  lemma SqStep(n: int)
    ensures Sq(n + 2) == Sq(n) + 4 * n + 4 && Sq(n) >= 0
  {
  }

  /** Two values of the ellipse one row apart, added up. */
  lemma TwoRows(o: Oval, i: int, j: int)
    ensures o.At(i, j) + o.At(i, j + 1)
         == 2 * (Sq(o.B()) * Sq(o.A() - 2 * i))
            + Sq(o.A()) * (Sq(o.Rise(j)) + Sq(o.Rise(j + 1)) - 2 * Sq(o.B()) + 2 * (o.Odd() - Sq(o.Odd())))
  {
    hide Sq;
  }

  lemma ProductNotNegative(m: int, n: int)
    requires m >= 0 && n >= 0
    ensures m * n >= 0 && (m * n == 0 <==> m == 0 || n == 0)
  {
  }

  lemma OddTerm(o: Oval)
    ensures o.Odd() - Sq(o.Odd()) == (if o.Odd() == -1 then -2 else 0)
    ensures o.Odd() == -1 ==> Abs(o.B()) >= 1
  {
  }

  /** A box of one column is left after one scan. */
  lemma OneColumn(o: Oval, i: int, j: int)
    requires o.width == 1
    ensures o.In(i, j)
  {
    assert Sq(o.A()) == 0;
    SqStep(o.B()); SqStep(o.A() - 2 * i); SqStep(o.A() - 2 * (i + 1));
    ProductNotNegative(Sq(o.B()), Sq(o.A() - 2 * i));
    ProductNotNegative(Sq(o.B()), Sq(o.A() - 2 * (i + 1)));
  }

  /** From the top row of the box there is no move out, except that a box of one column may move
      both ways at once. */
  lemma UpOnlyBelowTheTop(o: Oval, i: int, j: int)
    requires j >= 0 && o.Up(i, j)
    ensures o.width == 1 || o.Rise(j) < Abs(o.B())
    ensures o.In(i, j) || o.Rise(j) < Abs(o.B())
  {
    assert Sq(o.A()) == 0 ==> o.A() == 0;
    if o.Rise(j) >= Abs(o.B()) {
      var a2, b2 := Sq(o.A()), Sq(o.B());
      var h := Sq(o.Rise(j)) + Sq(o.Rise(j + 1)) - 2 * b2 + 2 * (o.Odd() - Sq(o.Odd()));
      assert h > 0 by {
        SqAtLeast(o.Rise(j), o.B());
        SqStep(o.Rise(j));
        OddTerm(o);
      }
      SqStep(o.A()); SqStep(o.B());
      SqStep(o.A() - 2 * (i + 1));
      TwoRows(o, i + 1, j);
      ProductNotNegative(b2, Sq(o.A() - 2 * (i + 1)));
      ProductNotNegative(a2, h);
      OneColumn(o, i, j);
    }
  }

  /** The increments of the ellipse along either axis do not depend on the other coordinate. */
  lemma Increments(o: Oval, i: int, j: int)
    ensures o.At(i + 1, j) - o.At(i, j) == 4 * (1 - o.A() + 2 * i) * Sq(o.B())
    ensures o.At(i, j + 1) - o.At(i, j) == 4 * (o.Rise(j) + 1) * Sq(o.A())
  {
    SqStep(o.A() - 2 * (i + 1));
    SqStep(o.Rise(j));
    var a2, b2 := Sq(o.A()), Sq(o.B());
    Distribute(b2, Sq(o.A() - 2 * (i + 1)), o.A() - 2 * (i + 1));
    Distribute(a2, Sq(o.Rise(j)), o.Rise(j));
  }

  lemma Distribute(c: int, square: int, n: int)
    ensures c * (square + 4 * n + 4) == c * square + 4 * (n + 1) * c
  {
  }

  /** The error term of the source is the ellipse one column in and one row out. */
  lemma FirstError(o: Oval)
    ensures o.At(1, 1) == 4 * (1 - o.A()) * Sq(o.B()) + 4 * (o.Odd() + 1) * Sq(o.A()) + o.Odd() * Sq(o.A())
  {
    Increments(o, 0, 0);
    Increments(o, 0, 1);
    assert Sq(o.A()) * (o.Odd() - Sq(o.Odd())) == o.Odd() * Sq(o.A()) - Sq(o.A()) * Sq(o.Odd());
  }

  /** The loop variables dx, dy and err in terms of the ellipse around scan (i, j). */
  ghost predicate Tracks(o: Oval, i: int, j: int, dx: int, dy: int, err: int) {
    && dx == 4 * (1 - o.A() + 2 * i) * Sq(o.B())
    && dy == 4 * (o.Rise(j) + 1) * Sq(o.A())
    && err == o.At(i + 1, j + 1)
  }

  /** The tests of the source are the midpoint rules. */
  lemma Decisions(o: Oval, i: int, j: int, dx: int, dy: int, err: int)
    requires Tracks(o, i, j, dx, dy, err)
    ensures o.Up(i, j) <==> 2 * err <= dy
    ensures o.In(i, j) <==> 2 * err >= dx || 2 * err > dy
  {
    Increments(o, i, j + 1);
    Increments(o, i + 1, j);
  }

  /** The updates of the source keep track of the ellipse. */
  lemma Moves(o: Oval, i: int, j: int, dx: int, dy: int, err: int)
    requires Tracks(o, i, j, dx, dy, err)
    ensures var dx', dy' := dx + 8 * Sq(o.B()), dy + 8 * Sq(o.A());
            && dy <= dy'
            && Tracks(o, i, j + 1, dx, dy', err + dy')
            && Tracks(o, i + 1, j, dx', dy, err + dx')
            && Tracks(o, i + 1, j + 1, dx', dy', err + dy' + dx')
  {
    hide Sq, Oval.At;
    SqStep(o.A());
    Increments(o, i + 1, j + 1);
    Increments(o, i + 1, j + 2);
    assert 4 * (1 - o.A() + 2 * (i + 1)) * Sq(o.B()) == 4 * (1 - o.A() + 2 * i) * Sq(o.B()) + 8 * Sq(o.B());
    assert 4 * (o.Rise(j + 1) + 1) * Sq(o.A()) == 4 * (o.Rise(j) + 1) * Sq(o.A()) + 8 * Sq(o.A());
  }

  /** What a drawing does to one pixel. */
  datatype Mark = Untouched | Stroke | Fill

  /** What one pass does: strokes the four corners, then fills the spans between them. */
  function MarkOf(o: Oval, s: Scan, px: int, py: int): Mark {
    if py != o.North(s.j) && py != o.South(s.j) then Untouched
    else if s.fills && o.West(s.i) < px < o.East(s.i) then Fill
    else if px == o.West(s.i) || px == o.East(s.i) then Stroke
    else Untouched
  }

  /** What a sequence of passes does: the last one to touch the pixel decides. */
  function Marks(o: Oval, scans: seq<Scan>, px: int, py: int): Mark {
    if scans == [] then Untouched
    else
      var last := MarkOf(o, scans[|scans| - 1], px, py);
      if last.Untouched? then Marks(o, scans[..|scans| - 1], px, py) else last
  }

  function Shade(was: Color, mark: Mark, stroke: Color, fill: Color): Color {
    match mark
    case Untouched => was
    case Stroke => stroke
    case Fill => fill
  }

  /** `now` is `was` with the scans drawn over it. */
  ghost predicate Drawn(now: Picture, was: Picture, o: Oval, scans: seq<Scan>, stroke: Color, fill: Color) {
    forall px, py | OnScreen(px, py) ::
      now(px, py) == Shade(was(px, py), Marks(o, scans, px, py), stroke, fill)
  }

  lemma DrawnOneMore(now: Picture, before: Picture, was: Picture, o: Oval, scans: seq<Scan>, s: Scan,
                     stroke: Color, fill: Color)
    requires Drawn(before, was, o, scans, stroke, fill)
    requires forall px, py | OnScreen(px, py) ::
               now(px, py) == Shade(before(px, py), MarkOf(o, s, px, py), stroke, fill)
    ensures Drawn(now, was, o, scans + [s], stroke, fill)
  {
    assert (scans + [s])[..|scans|] == scans;
  }

  /** The body of either loop up to its decisions. */
  method DrawScan(canvas: Canvas, ghost o: Oval, ghost s: Scan, west: int, east: int, north: int, south: int,
                  fills: bool, strokeColor: Color, fillColor: Color)
    requires canvas.Valid() && fills == s.fills
    requires west == o.West(s.i) && east == o.East(s.i) && north == o.North(s.j) && south == o.South(s.j)
    modifies canvas`view, canvas.data
    ensures canvas.Valid()
    ensures forall px, py | OnScreen(px, py) ::
              canvas.view(px, py)
              == Shade(old(canvas.view)(px, py), MarkOf(o, s, px, py), strokeColor, fillColor)
  {
    canvas.DrawPointUnclipped(strokeColor, east, north);
    canvas.DrawPointUnclipped(strokeColor, west, north);
    canvas.DrawPointUnclipped(strokeColor, west, south);
    canvas.DrawPointUnclipped(strokeColor, east, south);
    var start := west + 1;
    var len := east - start;
    if fills && len > 0 {
      canvas.DrawHLineUnclipped(fillColor, start, north, east);
      canvas.DrawHLineUnclipped(fillColor, start, south, east);
    }
  }

  /** The second loop. */
  method DrawTips(canvas: Canvas, ghost o: Oval, ghost i: int, ghost j0: int, west: int, east: int,
                  north0: int, south0: int, height: int, strokeColor: Color, fillColor: Color)
    requires canvas.Valid() && height == o.height
    requires west == o.West(i) && east == o.East(i) && north0 == o.North(j0) && south0 == o.South(j0)
    modifies canvas`view, canvas.data
    ensures canvas.Valid()
    ensures Drawn(canvas.view, old(canvas.view), o, o.Tips(i, j0), strokeColor, fillColor)
  {
    hide Drawn, Marks, MarkOf;
    var north, south := north0, south0;
    ghost var was, j, done := canvas.view, j0, [];
    DrawnNothing(was, o, strokeColor, fillColor);
    while north - south < height
      invariant canvas.Valid() && north == o.North(j) && south == o.South(j)
      invariant done + o.Tips(i, j) == o.Tips(i, j0)
      invariant Drawn(canvas.view, was, o, done, strokeColor, fillColor)
      decreases height - (north - south)
    {
      ghost var before, tip := canvas.view, Scan(i - 1, j, false);
      DrawScan(canvas, o, tip, west - 1, east + 1, north, south, false, strokeColor, fillColor);
      north := north + 1;
      south := south - 1;
      DrawnOneMore(canvas.view, before, was, o, done, tip, strokeColor, fillColor);
      done := done + [tip];
      j := j + 1;
    }
    assert done == o.Tips(i, j0);
  }

  lemma DrawnInTurn(now: Picture, before: Picture, was: Picture, o: Oval, first: seq<Scan>, then_: seq<Scan>,
                    stroke: Color, fill: Color)
    requires Drawn(before, was, o, first, stroke, fill) && Drawn(now, before, o, then_, stroke, fill)
    ensures Drawn(now, was, o, first + then_, stroke, fill)
  {
    forall px, py
      ensures Marks(o, first + then_, px, py)
           == var m := Marks(o, then_, px, py); if m.Untouched? then Marks(o, first, px, py) else m
    {
      MarksInTurn(o, first, then_, px, py);
    }
  }

  lemma {:induction false} MarksInTurn(o: Oval, first: seq<Scan>, then_: seq<Scan>, px: int, py: int)
    ensures Marks(o, first + then_, px, py)
         == var m := Marks(o, then_, px, py); if m.Untouched? then Marks(o, first, px, py) else m
  {
    if then_ == [] {
      assert first + then_ == first;
    } else {
      var all, n := first + then_, |then_| - 1;
      assert all[..|all| - 1] == first + then_[..n];
      MarksInTurn(o, first, then_[..n], px, py);
    }
  }

  method DrawOval(canvas: Canvas, x: int, y: int, width: int, height: int)
    requires canvas.Valid()
    modifies canvas`view, canvas.data
    ensures canvas.Valid()
    ensures canvas.Dc1() == 0xf ==> canvas.view == old(canvas.view)
    ensures canvas.Dc1() != 0xf ==>
              var o := Oval(x, y, width, height);
              forall px, py | OnScreen(px, py) ::
                canvas.view(px, py) == match Marks(o, o.Scans(0, 0, canvas.Dc0() != 0), px, py)
                                       case Untouched => old(canvas.view)(px, py)
                                       case Stroke => Ink(canvas.Dc1())
                                       case Fill => Ink(canvas.Dc0())
  {
    var dc0, dc1 := canvas.Dc0(), canvas.Dc1();
    if dc1 == 0xf {
      return;
    }
    var strokeColor, fillColor := Ink(dc1), Ink(dc0);
    var a, b := width - 1, height - 1;
    var b1 := CMod2(b);
    var north := y + CHalf(height);
    var west := x;
    var east := x + width - 1;
    var south := north - b1;
    var a2, b2 := a * a, b * b;
    var dx := 4 * (1 - a) * b2;
    var dy := 4 * (b1 + 1) * a2;
    var err := dx + dy + b1 * a2;

    ghost var o := Oval(x, y, width, height);
    assert a2 == Sq(o.A()) && b2 == Sq(o.B());
    FirstError(o);
    ghost var was := canvas.view;
    ghost var i, j, outline;
    west, east, north, south, i, j, outline :=
      DrawOutline(canvas, o, west, east, north, south, 8 * a2, 8 * b2, dx, dy, err, dc0 != 0, strokeColor, fillColor);
    ghost var before := canvas.view;
    DrawTips(canvas, o, i, j, west, east, north, south, height, strokeColor, fillColor);
    DrawnInTurn(canvas.view, before, was, o, outline, o.Tips(i, j), strokeColor, fillColor);
  }

  /** The first loop, from its initial values to the state it leaves. */
  method DrawOutline(canvas: Canvas, ghost o: Oval, west0: int, east0: int, north0: int, south0: int,
                     a: int, b1: int, dx0: int, dy0: int, err0: int,
                     fills: bool, strokeColor: Color, fillColor: Color)
    returns (west: int, east: int, north: int, south: int, ghost i: int, ghost j: int, ghost done: seq<Scan>)
    requires canvas.Valid()
    requires west0 == o.West(0) && east0 == o.East(0) && north0 == o.North(0) && south0 == o.South(0)
    requires a == 8 * Sq(o.A()) && b1 == 8 * Sq(o.B()) && Tracks(o, 0, 0, dx0, dy0, err0)
    modifies canvas`view, canvas.data
    ensures canvas.Valid()
    ensures west == o.West(i) && east == o.East(i) && north == o.North(j) && south == o.South(j)
    ensures done + o.Tips(i, j) == o.Scans(0, 0, fills)
    ensures Drawn(canvas.view, old(canvas.view), o, done, strokeColor, fillColor)
  {
    hide Sq, CMod2, CHalf, Oval.At, Oval.Up, Oval.In, Oval.Scans, Oval.Tips, Tracks, Marks, MarkOf, Drawn;
    west, east, north, south := west0, east0, north0, south0;
    var dx, dy, err := dx0, dy0, err0;
    ghost var was := canvas.view;
    i, j, done := 0, 0, [];
    DrawnNothing(was, o, strokeColor, fillColor);
    var more := true;
    while more
      invariant canvas.Valid() && j >= 0
      invariant west == o.West(i) && east == o.East(i) && north == o.North(j) && south == o.South(j)
      invariant Tracks(o, i, j, dx, dy, err)
      invariant done + (if more then o.Scans(i, j, fills) else o.Tips(i, j)) == o.Scans(0, 0, fills)
      invariant Drawn(canvas.view, was, o, done, strokeColor, fillColor)
      decreases more, o.A() - 2 * i, Max(0, Abs(o.B()) - o.Rise(j))
    {
      ghost var before, scan := canvas.view, Scan(i, j, fills);
      DrawScan(canvas, o, scan, west, east, north, south, fills, strokeColor, fillColor);
      DrawnOneMore(canvas.view, before, was, o, done, scan, strokeColor, fillColor);
      Decisions(o, i, j, dx, dy, err);
      Moves(o, i, j, dx, dy, err);
      SomeMove(o, i, j);
      ScansStep(o, i, j, fills, done);
      done := done + [scan];

      var err2 := 2 * err;
      if err2 <= dy {
        north := north + 1;
        south := south - 1;
        dy := dy + a;
        err := err + dy;
        j := j + 1;
      }
      if err2 >= dx || err2 > dy {
        west := west + 1;
        east := east - 1;
        dx := dx + b1;
        err := err + dx;
        i := i + 1;
      }
      more := west <= east;
    }
  }

  lemma ScansStep(o: Oval, i: int, j: int, fills: bool, done: seq<Scan>)
    requires j >= 0
    ensures var i' := if o.In(i, j) then i + 1 else i;
            var j' := if o.Up(i, j) then j + 1 else j;
            done + o.Scans(i, j, fills)
            == done + [Scan(i, j, fills)]
               + (if 2 * i' > o.A() then o.Tips(i', j') else o.Scans(i', j', fills))
  {
  }

  lemma DrawnNothing(was: Picture, o: Oval, stroke: Color, fill: Color)
    ensures Drawn(was, was, o, [], stroke, fill)
  {
  }

  lemma SomeMove(o: Oval, i: int, j: int)
    requires j >= 0
    ensures o.Up(i, j) || o.In(i, j)
    ensures o.In(i, j) || o.Rise(j) < Abs(o.B())
  {
    if o.Up(i, j) {
      UpOnlyBelowTheTop(o, i, j);
    }
  }
}
