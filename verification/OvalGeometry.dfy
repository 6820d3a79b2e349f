/// What the scans of an oval look like: symmetric, inside the box and touching
/// all of it, solid when filled, and never more than a pixel from the ellipse.
module OvalGeometry {
  import opened Framebuffer
  import opened MidpointOval

  /** The whole drawing of an oval. */
  function Drawing(o: Oval, fills: bool, px: int, py: int): Mark {
    Marks(o, o.Scans(0, 0, fills), px, py)
  }

  /** The scans from (i, j) on, one step unfolded, without the equation of the ellipse. */
  lemma ScansUnfold(o: Oval, i: int, j: int, fills: bool) returns (i': int, j': int)
    requires j >= 0
    ensures i <= i' <= i + 1 && j <= j' <= j + 1
    ensures i' == i ==> j' == j + 1 && o.Rise(j) < Abs(o.B())
    ensures o.width != 1 && j' == j + 1 ==> o.Rise(j) < Abs(o.B())
    ensures o.Scans(i, j, fills)
         == [Scan(i, j, fills)] + (if 2 * i' > o.A() then o.Tips(i', j') else o.Scans(i', j', fills))
    ensures o.A() - i' - i' < o.A() - i - i || Max(0, Abs(o.B()) - o.Rise(j')) < Max(0, Abs(o.B()) - o.Rise(j))
  {
    SomeMove(o, i, j);
    if o.Up(i, j) {
      UpOnlyBelowTheTop(o, i, j);
    }
    i' := if o.In(i, j) then i + 1 else i;
    j' := if o.Up(i, j) then j + 1 else j;
  }

  /** Both mirror images of a pixel get the mark the pixel gets, whatever the scans. */
  lemma {:induction false} MirrorSymmetric(o: Oval, scans: seq<Scan>, px: int, py: int)
    ensures Marks(o, scans, o.West(0) + o.East(0) - px, py) == Marks(o, scans, px, py)
    ensures Marks(o, scans, px, o.North(0) + o.South(0) - py) == Marks(o, scans, px, py)
  {
    if scans != [] {
      MirrorSymmetric(o, scans[..|scans| - 1], px, py);
    }
  }

  /** A scan of corners inside the box. */
  predicate InBox(o: Oval, s: Scan) {
    0 <= 2 * s.i <= o.A() && 0 <= s.j && o.Rise(s.j) <= o.B()
  }

  lemma {:induction false} ScansStayInBox(o: Oval, i: int, j: int, fills: bool)
    requires o.width >= 1 && o.height >= 1 && InBox(o, Scan(i, j, fills))
    ensures forall s <- o.Scans(i, j, fills) :: InBox(o, s)
    decreases o.A() - 2 * i, Max(0, Abs(o.B()) - o.Rise(j))
  {
    var i', j' := ScansUnfold(o, i, j, fills);
    if 2 * i' > o.A() {
      TipsStayInBox(o, i', j');
    } else {
      ScansStayInBox(o, i', j', fills);
    }
  }

  lemma {:induction false} TipsStayInBox(o: Oval, i: int, j: int)
    requires 0 <= 2 * (i - 1) <= o.A() && 0 <= j
    ensures forall s <- o.Tips(i, j) :: InBox(o, s) && s.i == i - 1
    decreases Max(0, o.height - o.Rise(j))
  {
    if o.Rise(j) < o.height {
      TipsStayInBox(o, i, j + 1);
    }
  }

  /** A pixel is touched exactly when one of the scans touches it. */
  lemma {:induction false} TouchedBySome(o: Oval, scans: seq<Scan>, px: int, py: int)
    ensures Marks(o, scans, px, py) != Untouched <==> exists s <- scans :: MarkOf(o, s, px, py) != Untouched
  {
    if scans != [] {
      var n := |scans| - 1;
      TouchedBySome(o, scans[..n], px, py);
      assert scans == scans[..n] + [scans[n]];
    }
  }

  lemma ScanInBoxMarksInBox(o: Oval, s: Scan, px: int, py: int)
    requires o.width >= 1 && o.height >= 1 && InBox(o, s) && MarkOf(o, s, px, py) != Untouched
    ensures o.x <= px < o.x + o.width && o.y <= py < o.y + o.height
  {
  }

  /** Nothing is drawn outside the box. */
  lemma DrawingStaysInBox(o: Oval, fills: bool, px: int, py: int)
    requires o.width >= 1 && o.height >= 1
    requires Drawing(o, fills, px, py) != Untouched
    ensures o.x <= px < o.x + o.width && o.y <= py < o.y + o.height
  {
    var scans := o.Scans(0, 0, fills);
    ScansStayInBox(o, 0, 0, fills);
    TouchedBySome(o, scans, px, py);
    var s :| s in scans && MarkOf(o, s, px, py) != Untouched;
    ScanInBoxMarksInBox(o, s, px, py);
  }

  /** The path passes every row up to the top, and reaches row j no further in than scan s if s is
      on row j or above. */
  lemma {:induction false} RowIsScanned(o: Oval, i: int, j: int, fills: bool, row: int) returns (s: Scan)
    requires o.width >= 1 && o.height >= 1 && 0 <= 2 * i <= o.A() && 0 <= j <= row && o.Rise(row) < o.height
    ensures s in o.Scans(i, j, fills) && s.j == row
    ensures forall t <- o.Scans(i, j, fills) | t.j >= row :: s.i <= t.i
    decreases o.A() - 2 * i, Max(0, Abs(o.B()) - o.Rise(j))
  {
    ScansMoveInwards(o, i, j, fills);
    var i', j' := ScansUnfold(o, i, j, fills);
    if row == j {
      s := Scan(i, j, fills);
    } else if 2 * i' > o.A() {
      TipsStayInBox(o, i', j');
      s := Scan(i' - 1, row, false);
      TipOnRow(o, i', j', row);
    } else {
      s := RowIsScanned(o, i', j', fills, row);
    }
  }

  lemma {:induction false} TipOnRow(o: Oval, i: int, j: int, row: int)
    requires j <= row && o.Rise(row) < o.height
    ensures Scan(i - 1, row, false) in o.Tips(i, j)
    decreases row - j
  {
    if j < row {
      TipOnRow(o, i, j + 1, row);
    }
  }

  /** No later scan is further out than an earlier one. */
  lemma {:induction false} ScansMoveInwards(o: Oval, i: int, j: int, fills: bool)
    requires 0 <= 2 * i <= o.A() && 0 <= j
    ensures forall t <- o.Scans(i, j, fills) :: i <= t.i && j <= t.j && (t.fills == fills || o.A() - 2 * t.i <= 1)
    decreases o.A() - 2 * i, Max(0, Abs(o.B()) - o.Rise(j))
  {
    var i', j' := ScansUnfold(o, i, j, fills);
    if 2 * i' > o.A() {
      TipsMoveOutwards(o, i', j');
    } else {
      ScansMoveInwards(o, i', j', fills);
    }
  }

  lemma {:induction false} TipsMoveOutwards(o: Oval, i: int, j: int)
    ensures forall t <- o.Tips(i, j) :: t.i == i - 1 && j <= t.j && !t.fills
    decreases Max(0, o.height - o.Rise(j))
  {
    if o.Rise(j) < o.height {
      TipsMoveOutwards(o, i, j + 1);
    }
  }

  /** The scan row a pixel row of the box belongs to. */
  function RowOf(o: Oval, py: int): int {
    if py >= o.North(0) then py - o.North(0) else o.South(0) - py
  }

  lemma RowOfBoxRow(o: Oval, py: int)
    requires o.height >= 1 && o.y <= py < o.y + o.height
    ensures 0 <= RowOf(o, py) && o.Rise(RowOf(o, py)) < o.height
    ensures py == o.North(RowOf(o, py)) || py == o.South(RowOf(o, py))
  {
  }

  /** The last scan of a row leaves its corners stroked. */
  lemma {:induction false} RowKeepsAStroke(o: Oval, scans: seq<Scan>, s: Scan, py: int) returns (px: int)
    requires s in scans && (py == o.North(s.j) || py == o.South(s.j))
    ensures Marks(o, scans, px, py) == Stroke
  {
    var n := |scans| - 1;
    var last := scans[n];
    if py == o.North(last.j) || py == o.South(last.j) {
      px := o.West(last.i);
    } else {
      px := RowKeepsAStroke(o, scans[..n], s, py);
    }
  }

  /** Every row of the box is stroked, for every width and height. */
  lemma EveryRowIsStroked(o: Oval, fills: bool, py: int) returns (px: int)
    requires o.width >= 1 && o.height >= 1 && o.y <= py < o.y + o.height
    ensures Drawing(o, fills, px, py) == Stroke
  {
    RowOfBoxRow(o, py);
    var s := RowIsScanned(o, 0, 0, fills, RowOf(o, py));
    px := RowKeepsAStroke(o, o.Scans(0, 0, fills), s, py);
  }

  /** The outermost columns are stroked on the middle row, so the drawing fills its box. */
  lemma SidesAreStroked(o: Oval, fills: bool)
    requires o.width >= 1 && o.height >= 1
    ensures Drawing(o, fills, o.x, o.North(0)) == Stroke
    ensures Drawing(o, fills, o.x + o.width - 1, o.North(0)) == Stroke
  {
    hide Oval.Scans, Marks;
    var scans := o.Scans(0, 0, fills);
    ScansStayInBox(o, 0, 0, fills);
    var i, j := ScansUnfold(o, 0, 0, fills);
    EdgeColumn(o, scans, o.North(0));
    TouchedBySome(o, scans, o.x, o.North(0));
    assert scans[0] == Scan(0, 0, fills);
    assert scans[0] in scans && MarkOf(o, scans[0], o.x, o.North(0)) == Stroke;
    MirrorSymmetric(o, scans, o.x, o.North(0));
  }

  lemma {:induction false} EdgeColumn(o: Oval, scans: seq<Scan>, py: int)
    requires forall s <- scans :: 0 <= 2 * s.i <= o.A()
    ensures Marks(o, scans, o.x, py) != Fill
  {
    if scans != [] {
      EdgeColumn(o, scans[..|scans| - 1], py);
    }
  }

  /** How far a pixel is from the centre of the box, in half pixels, on either axis. */
  function OffX(o: Oval, px: int): int { Abs(2 * px - o.West(0) - o.East(0)) }

  function OffY(o: Oval, py: int): int { Abs(2 * py - o.North(0) - o.South(0)) }

  /** A scan that fills, or whose corners meet in the middle, touches its rows from corner to corner. */
  lemma SolidScan(o: Oval, s: Scan, px: int, py: int)
    requires o.height >= 1 && 0 <= 2 * s.i <= o.A() && 0 <= s.j && (s.fills || o.A() - 2 * s.i <= 1)
    ensures MarkOf(o, s, px, py) != Untouched <==> OffX(o, px) <= o.A() - 2 * s.i && OffY(o, py) == o.Rise(s.j)
  {
  }

  /** A filled oval is solid: with a pixel it holds every pixel that is no further from the centre
      on either axis, the whole rectangle between the pixel and its mirror images. */
  lemma FilledOvalIsSolid(o: Oval, px: int, py: int, qx: int, qy: int)
    requires o.width >= 1 && o.height >= 1
    requires Drawing(o, true, px, py) != Untouched
    requires OffX(o, qx) <= OffX(o, px) && OffY(o, qy) <= OffY(o, py)
    ensures Drawing(o, true, qx, qy) != Untouched
  {
    var scans := o.Scans(0, 0, true);
    ScansStayInBox(o, 0, 0, true);
    ScansMoveInwards(o, 0, 0, true);
    TouchedBySome(o, scans, px, py);
    var s :| s in scans && MarkOf(o, s, px, py) != Untouched;
    SolidScan(o, s, px, py);
    var row := RowOf(o, qy);
    assert OffY(o, qy) == o.Rise(row) && row <= s.j;
    var t := RowIsScanned(o, 0, 0, true, row);
    SolidScan(o, t, qx, qy);
    TouchedBySome(o, scans, qx, qy);
  }

  // Stroke and fill

  predicate Corner(o: Oval, s: Scan, px: int, py: int) {
    (py == o.North(s.j) || py == o.South(s.j)) && (px == o.West(s.i) || px == o.East(s.i))
  }

  /** No later pass that fills a row is further out on it than an earlier one. */
  predicate Nested(scans: seq<Scan>) {
    && (forall s <- scans :: 0 <= s.j)
    && forall a, b | 0 <= a < b < |scans| && scans[b].fills && scans[a].j == scans[b].j :: scans[a].i <= scans[b].i
  }

  /** Then no fill covers a corner: what is stroked are exactly the corners. */
  lemma {:induction false} StrokesAreCorners(o: Oval, scans: seq<Scan>, px: int, py: int)
    requires o.height >= 1 && Nested(scans)
    ensures Marks(o, scans, px, py) == Stroke <==> exists s <- scans :: Corner(o, s, px, py)
  {
    if scans != [] {
      var n := |scans| - 1;
      var front, last := scans[..n], scans[n];
      assert forall k | 0 <= k < n :: front[k] == scans[k];
      StrokesAreCorners(o, front, px, py);
      assert forall s :: s in scans <==> s in front || s == last;
      var mark := MarkOf(o, last, px, py);
      if mark == Fill {
        forall s | s in scans
          ensures !Corner(o, s, px, py)
        {
          if s in front {
            var k :| 0 <= k < n && front[k] == s;
            assert s.j == last.j ==> s.i <= last.i;
          }
        }
        assert Marks(o, scans, px, py) == Fill;
      } else if mark == Stroke {
        assert Corner(o, last, px, py) && last in scans;
      } else {
        assert !Corner(o, last, px, py) && Marks(o, scans, px, py) == Marks(o, front, px, py);
      }
    }
  }

  lemma {:induction false} ScansNested(o: Oval, i: int, j: int, fills: bool)
    requires 0 <= 2 * i <= o.A() && 0 <= j
    ensures Nested(o.Scans(i, j, fills))
    decreases o.A() - 2 * i, Max(0, Abs(o.B()) - o.Rise(j))
  {
    hide Oval.Scans, Oval.Tips;
    var i', j' := ScansUnfold(o, i, j, fills);
    if 2 * i' > o.A() {
      TipsMoveOutwards(o, i', j');
      NestedInFront(Scan(i, j, fills), o.Tips(i', j'));
    } else {
      ScansNested(o, i', j', fills);
      ScansMoveInwards(o, i', j', fills);
      NestedInFront(Scan(i, j, fills), o.Scans(i', j', fills));
    }
  }

  lemma NestedInFront(s: Scan, rest: seq<Scan>)
    requires 0 <= s.j && (forall t <- rest :: 0 <= t.j && (t.fills ==> s.i <= t.i))
    requires (forall t <- rest :: !t.fills) || Nested(rest)
    ensures Nested([s] + rest)
  {
    var scans := [s] + rest;
    forall a, b | 0 <= a < b < |scans| && scans[b].fills && scans[a].j == scans[b].j
      ensures scans[a].i <= scans[b].i
    {
      assert scans[b] == rest[b - 1] && rest[b - 1] in rest;
      if a > 0 {
        assert scans[a] == rest[a - 1];
      }
    }
  }

  /** The same passes without filling. */
  function Hollow(scans: seq<Scan>): seq<Scan> {
    seq(|scans|, k requires 0 <= k < |scans| => Scan(scans[k].i, scans[k].j, false))
  }

  lemma {:induction false} UnfilledIsHollow(o: Oval, i: int, j: int)
    requires 0 <= 2 * i <= o.A() && 0 <= j
    ensures o.Scans(i, j, false) == Hollow(o.Scans(i, j, true))
    decreases o.A() - 2 * i, Max(0, Abs(o.B()) - o.Rise(j))
  {
    hide Oval.Scans, Oval.Tips;
    var i', j' := UnfoldBoth(o, i, j);
    if 2 * i' > o.A() {
      TipsMoveOutwards(o, i', j');
      HollowInFront(Scan(i, j, true), o.Tips(i', j'));
    } else {
      UnfilledIsHollow(o, i', j');
      HollowInFront(Scan(i, j, true), o.Scans(i', j', true));
    }
  }

  lemma UnfoldBoth(o: Oval, i: int, j: int) returns (i': int, j': int)
    requires 0 <= 2 * i <= o.A() && 0 <= j
    ensures 0 <= i' && 0 <= j'
    ensures o.Scans(i, j, true)
         == [Scan(i, j, true)] + (if 2 * i' > o.A() then o.Tips(i', j') else o.Scans(i', j', true))
    ensures o.Scans(i, j, false)
         == [Scan(i, j, false)] + (if 2 * i' > o.A() then o.Tips(i', j') else o.Scans(i', j', false))
    ensures o.A() - i' - i' < o.A() - i - i || Max(0, Abs(o.B()) - o.Rise(j')) < Max(0, Abs(o.B()) - o.Rise(j))
    ensures i <= i'
  {
    hide Oval.At, Oval.Up, Oval.In;
    SomeMove(o, i, j);
    i' := if o.In(i, j) then i + 1 else i;
    j' := if o.Up(i, j) then j + 1 else j;
  }

  lemma HollowInFront(s: Scan, rest: seq<Scan>)
    ensures Hollow([s] + rest) == [Scan(s.i, s.j, false)] + Hollow(rest)
    ensures (forall t <- rest :: !t.fills) ==> Hollow(rest) == rest
  {
    assert forall k | 0 <= k < |rest| :: rest[k] in rest;
  }

  lemma {:induction false} HollowIsNotFilled(o: Oval, scans: seq<Scan>, px: int, py: int)
    requires forall s <- scans :: !s.fills
    ensures Marks(o, scans, px, py) != Fill
  {
    if scans != [] {
      assert scans[|scans| - 1] in scans;
      HollowIsNotFilled(o, scans[..|scans| - 1], px, py);
    }
  }

  /** Filling leaves the outline as it is without, and an oval that is not filled has no fill. */
  lemma FillingKeepsTheOutline(o: Oval, px: int, py: int)
    requires o.width >= 1 && o.height >= 1
    ensures Drawing(o, true, px, py) == Stroke <==> Drawing(o, false, px, py) == Stroke
    ensures Drawing(o, false, px, py) != Fill
  {
    hide Oval.Scans, Marks, Corner;
    var filled, hollow := o.Scans(0, 0, true), o.Scans(0, 0, false);
    ScansNested(o, 0, 0, true);
    ScansNested(o, 0, 0, false);
    UnfilledIsHollow(o, 0, 0);
    StrokesAreCorners(o, filled, px, py);
    StrokesAreCorners(o, hollow, px, py);
    SameCorners(o, filled, px, py);
    HollowIsNotFilled(o, hollow, px, py);
  }

  lemma SameCorners(o: Oval, scans: seq<Scan>, px: int, py: int)
    ensures (exists s <- Hollow(scans) :: Corner(o, s, px, py)) <==> (exists s <- scans :: Corner(o, s, px, py))
    ensures forall s <- Hollow(scans) :: !s.fills
  {
    var hollow := Hollow(scans);
    if s :| s in scans && Corner(o, s, px, py) {
      var k :| 0 <= k < |scans| && scans[k] == s;
      assert hollow[k] in hollow && Corner(o, hollow[k], px, py);
    }
    if s :| s in hollow && Corner(o, s, px, py) {
      var k :| 0 <= k < |hollow| && hollow[k] == s;
      assert scans[k] in scans && Corner(o, scans[k], px, py);
    }
  }

  lemma {:induction false} FillHasScan(o: Oval, scans: seq<Scan>, px: int, py: int) returns (s: Scan)
    requires Marks(o, scans, px, py) == Fill
    ensures s in scans && MarkOf(o, s, px, py) == Fill
  {
    var n := |scans| - 1;
    if MarkOf(o, scans[n], px, py) == Fill {
      s := scans[n];
    } else {
      s := FillHasScan(o, scans[..n], px, py);
    }
  }

  /** The fill is what the outline encloses: the pixels between two strokes of a row that are not strokes. */
  lemma FillIsEnclosed(o: Oval, px: int, py: int)
    requires o.width >= 1 && o.height >= 1
    ensures Drawing(o, true, px, py) == Fill
       <==> && Drawing(o, false, px, py) != Stroke
            && exists a, b | a < px < b :: Drawing(o, false, a, py) == Stroke && Drawing(o, false, b, py) == Stroke
  {
    hide Oval.Scans;
    FillingKeepsTheOutline(o, px, py);
    if Drawing(o, true, px, py) == Fill {
      var scans := o.Scans(0, 0, true);
      var s := FillHasScan(o, scans, px, py);
      ScansNested(o, 0, 0, true);
      StrokesAreCorners(o, scans, o.West(s.i), py);
      StrokesAreCorners(o, scans, o.East(s.i), py);
      assert Corner(o, s, o.West(s.i), py) && Corner(o, s, o.East(s.i), py);
      FillingKeepsTheOutline(o, o.West(s.i), py);
      FillingKeepsTheOutline(o, o.East(s.i), py);
    } else if a, b :| a < px < b && Drawing(o, false, a, py) == Stroke && Drawing(o, false, b, py) == Stroke {
      FillingKeepsTheOutline(o, a, py);
      FillingKeepsTheOutline(o, b, py);
      FilledOvalIsSolid(o, if OffX(o, a) >= OffX(o, px) then a else b, py, px, py);
    }
  }

  /** The equation says inside, on and outside of the curve with half axes a and b. */
  lemma EllipseIsTheCurve(a: int, b: int, dx: int, dy: int)
    requires a > 0 && b > 0
    ensures var u, v := dx as real / a as real, dy as real / b as real;
            && (Ellipse(a, b, dx, dy) < 0 <==> u * u + v * v < 1.0)
            && (Ellipse(a, b, dx, dy) == 0 <==> u * u + v * v == 1.0)
  {
    hide Sq, Ellipse;
    var u, v := dx as real / a as real, dy as real / b as real;
    var p, q := Sq(a) as real, Sq(b) as real;
    SqAsReal(a);
    SqAsReal(b);
    SqAsReal(dx);
    SqAsReal(dy);
    assert dx as real == u * a as real && dy as real == v * b as real;
    Squared(u, a as real, dx as real);
    Squared(v, b as real, dy as real);
    assert Sq(dx) as real == u * u * p && Sq(dy) as real == v * v * q;
    Factored(p, q, u * u, v * v);
    EllipseAsReal(a, b, dx, dy);
    Scaled(p, q, u * u + v * v - 1.0);
  }

  lemma SqAsReal(n: int)
    ensures Sq(n) as real == n as real * n as real && (n != 0 ==> Sq(n) > 0)
  {
  }

  lemma Squared(u: real, a: real, x: real)
    requires x == u * a
    ensures x * x == u * u * (a * a)
  {
  }

  lemma Factored(p: real, q: real, s: real, t: real)
    ensures q * (s * p) + p * (t * q) - p * q == p * q * (s + t - 1.0)
  {
  }

  lemma EllipseAsReal(a: int, b: int, dx: int, dy: int)
    ensures Ellipse(a, b, dx, dy) as real
         == Sq(b) as real * Sq(dx) as real + Sq(a) as real * Sq(dy) as real - Sq(a) as real * Sq(b) as real
  {
  }

  lemma Scaled(p: real, q: real, r: real)
    requires p > 0.0 && q > 0.0
    ensures (p * q * r < 0.0 <==> r < 0.0) && (p * q * r == 0.0 <==> r == 0.0)
  {
    assert p * q > 0.0;
  }

  /** A corner that the ellipse separates from its neighbours: one of the two neighbours further
      out is not inside, and one of the two nearer an axis is not outside. */
  predicate NearEllipse(o: Oval, i: int, j: int) {
    var dx, dy := o.A() - 2 * i, o.Rise(j);
    && (Ellipse(o.A(), o.B(), dx + 2, dy) >= 0 || Ellipse(o.A(), o.B(), dx, dy + 2) >= 0)
    && (Ellipse(o.A(), o.B(), Max(0, dx - 2), dy) <= 0 || Ellipse(o.A(), o.B(), dx, Max(0, dy - 2)) <= 0)
  }

  lemma EllipseGrows(o: Oval, dx: int, dx': int, dy: int, dy': int)
    requires Abs(dx) <= dx' && Abs(dy) <= dy'
    ensures Ellipse(o.A(), o.B(), dx, dy) <= Ellipse(o.A(), o.B(), dx', dy')
  {
    SqAtLeast(dx', dx);
    SqAtLeast(dy', dy);
    SqStep(o.A());
    SqStep(o.B());
    ProductNotNegative(Sq(o.B()), Sq(dx') - Sq(dx));
    ProductNotNegative(Sq(o.A()), Sq(dy') - Sq(dy));
    Subtract(Sq(o.B()), Sq(dx'), Sq(dx));
    Subtract(Sq(o.A()), Sq(dy'), Sq(dy));
  }

  lemma Subtract(c: int, m: int, n: int)
    ensures c * (m - n) == c * m - c * n
  {
  }

  /** With a positive height the correction term vanishes. */
  lemma AtIsEllipse(o: Oval, i: int, j: int)
    requires o.height >= 1
    ensures o.At(i, j) == Ellipse(o.A(), o.B(), o.A() - 2 * i, o.Rise(j))
  {
    OddTerm(o);
  }

  /** The four values of the ellipse a decision looks at. */
  lemma DecisionValues(o: Oval, i: int, j: int)
    requires o.height >= 1
    ensures var e := (dx, dy) => Ellipse(o.A(), o.B(), dx, dy);
            var dx, dy := o.A() - 2 * i, o.Rise(j);
            && (o.Up(i, j) <==> e(dx - 2, dy) + e(dx - 2, dy + 2) <= 0)
            && (o.In(i, j) <==> e(dx, dy + 2) + e(dx - 2, dy + 2) >= 0 || !o.Up(i, j))
  {
    AtIsEllipse(o, i, j + 1);
    AtIsEllipse(o, i + 1, j);
    AtIsEllipse(o, i + 1, j + 1);
  }

  /** Every scan of the first loop has its corners within a pixel of the ellipse; the scans of the
      second loop only extend the middle columns. */
  lemma {:induction false} OutlineHugsTheEllipse(o: Oval, i: int, j: int, fills: bool)
    requires o.height >= 1 && 0 <= 2 * i <= o.A() && 0 <= j && NearEllipse(o, i, j)
    ensures forall s <- o.Scans(i, j, fills) :: NearEllipse(o, s.i, s.j) || o.A() - 2 * s.i <= 1
    decreases o.A() - 2 * i, Max(0, Abs(o.B()) - o.Rise(j))
  {
    var i' := if o.In(i, j) then i + 1 else i;
    var j' := if o.Up(i, j) then j + 1 else j;
    SomeMove(o, i, j);
    if 2 * i' > o.A() {
      TipsMoveOutwards(o, i', j');
    } else {
      NearStaysNear(o, i, j);
      OutlineHugsTheEllipse(o, i', j', fills);
    }
  }

  lemma NearAtFirst(o: Oval)
    requires o.width >= 1 && o.height >= 1
    ensures NearEllipse(o, 0, 0)
  {
    assert Ellipse(o.A(), o.B(), o.A(), 0) == 0;
    EllipseGrows(o, o.A(), o.A() + 2, 0, o.Rise(0));
  }

  lemma NearStaysNear(o: Oval, i: int, j: int)
    requires o.height >= 1 && 0 <= 2 * i <= o.A() && 0 <= j && NearEllipse(o, i, j)
    requires var i' := if o.In(i, j) then i + 1 else i; 2 * i' <= o.A()
    ensures NearEllipse(o, if o.In(i, j) then i + 1 else i, if o.Up(i, j) then j + 1 else j)
  {
    var dx, dy := o.A() - 2 * i, o.Rise(j);
    DecisionValues(o, i, j);
    SomeMove(o, i, j);
    if !o.In(i, j) {
      EllipseGrows(o, dx + 2, dx + 2, dy, dy + 2);
      EllipseGrows(o, dx, dx, dy + 2, dy + 4);
      EllipseGrows(o, Max(0, dx - 2), dx, dy + 2, dy + 2);
      EllipseGrows(o, Max(0, dx - 2), Abs(dx - 2), dy + 2, dy + 2);
      EllipseEven(o, dx - 2, dy + 2);
    } else if !o.Up(i, j) {
      EllipseGrows(o, dx - 2, dx - 2, dy, dy + 2);
      EllipseGrows(o, Max(0, dx - 4), dx - 2, dy, dy);
      EllipseGrows(o, dx - 2, dx, Max(0, dy - 2), Max(0, dy - 2));
    } else {
      EllipseGrows(o, dx - 2, dx, dy + 2, dy + 2);
      EllipseGrows(o, dx - 2, dx - 2, dy, dy + 2);
    }
  }

  lemma EllipseEven(o: Oval, dx: int, dy: int)
    ensures Ellipse(o.A(), o.B(), dx, dy) == Ellipse(o.A(), o.B(), Abs(dx), dy)
  {
    assert Sq(dx) == Sq(Abs(dx));
  }

  /** The outline of the whole drawing. */
  lemma DrawingHugsTheEllipse(o: Oval, fills: bool)
    requires o.width >= 1 && o.height >= 1
    ensures forall s <- o.Scans(0, 0, fills) :: NearEllipse(o, s.i, s.j) || o.A() - 2 * s.i <= 1
  {
    NearAtFirst(o);
    OutlineHugsTheEllipse(o, 0, 0, fills);
  }
}
