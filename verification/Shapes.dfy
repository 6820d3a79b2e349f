/// Straight strokes along an axis and the clipped rectangle.
module Shapes {
  import opened Framebuffer

  method HLine(canvas: Canvas, x: int, y: int, len: int)
    requires canvas.Valid()
    modifies canvas`view, canvas.data
    ensures canvas.Valid()
    ensures forall px, py | OnScreen(px, py) ::
              canvas.view(px, py) == (if canvas.Dc0() != 0 && py == y && x <= px < x + len
                                      then Ink(canvas.Dc0()) else old(canvas.view)(px, py))
  {
    var dc0 := canvas.Dc0();
    if dc0 == 0 {
      return;
    }
    canvas.DrawHLineUnclipped(Ink(dc0), x, y, x + len);
  }

  method VLine(canvas: Canvas, x: int, y: int, len: int)
    requires canvas.Valid()
    modifies canvas`view, canvas.data
    ensures canvas.Valid()
    ensures forall px, py | OnScreen(px, py) ::
              canvas.view(px, py) == (if canvas.Dc0() != 0 && px == x && y <= py < y + len
                                      then Ink(canvas.Dc0()) else old(canvas.view)(px, py))
  {
    if y + len <= 0 || x < 0 || x >= WIDTH {
      return;
    }
    var dc0 := canvas.Dc0();
    if dc0 == 0 {
      return;
    }
    DrawVRun(canvas, Ink(dc0), x, Max(0, y), Min(HEIGHT, y + len));
  }

  /** The downward loop of VLine and of the rectangle's left and right edges. */
  method DrawVRun(canvas: Canvas, color: Color, x: int, startY: int, endY: int)
    requires canvas.Valid() && 0 <= x < WIDTH && 0 <= startY && endY <= HEIGHT
    modifies canvas`view, canvas.data
    ensures canvas.Valid()
    ensures forall px, py ::
              canvas.view(px, py) == (if px == x && startY <= py < endY then color else old(canvas.view)(px, py))
  {
    var yy := startY;
    while yy < endY
      invariant startY <= yy && (yy <= endY || yy == startY) && canvas.Valid()
      invariant forall px, py ::
                  canvas.view(px, py) == (if px == x && startY <= py < yy then color else old(canvas.view)(px, py))
    {
      canvas.DrawPoint(color, x, yy);
      yy := yy + 1;
    }
  }

  predicate InRect(px: int, py: int, x: int, y: int, width: int, height: int) {
    x <= px < x + width && y <= py < y + height
  }

  /** The unclipped border the stroke is drawn on, for any width and height. */
  predicate OnBorder(px: int, py: int, x: int, y: int, width: int, height: int) {
    || (y <= py < y + height && (px == x || px == x + width - 1))
    || (x <= px < x + width && (py == y || py == y + height - 1))
  }

  /** Stroke over fill over background. */
  method Rect(canvas: Canvas, x: int, y: int, width: int, height: int)
    requires canvas.Valid()
    modifies canvas`view, canvas.data
    ensures canvas.Valid()
    ensures forall px, py | OnScreen(px, py) ::
              canvas.view(px, py)
              == if canvas.Dc1() != 0 && OnBorder(px, py, x, y, width, height) then Ink(canvas.Dc1())
                 else if canvas.Dc0() != 0 && InRect(px, py, x, y, width, height) then Ink(canvas.Dc0())
                 else old(canvas.view)(px, py)
  {
    var dc0, dc1 := canvas.Dc0(), canvas.Dc1();
    if dc0 != 0 {
      FillRows(canvas, Ink(dc0), x, y, width, height);
    }
    if dc1 != 0 {
      StrokeSides(canvas, Ink(dc1), x, y, width, height);
      StrokeEnds(canvas, Ink(dc1), x, y, width, height);
    }
  }

  /** The fill: one span for every row of the rectangle that is on the screen. */
  method FillRows(canvas: Canvas, color: Color, x: int, y: int, width: int, height: int)
    requires canvas.Valid()
    modifies canvas`view, canvas.data
    ensures canvas.Valid()
    ensures forall px, py | OnScreen(px, py) ::
              canvas.view(px, py)
              == (if InRect(px, py, x, y, width, height) then color else old(canvas.view)(px, py))
  {
    var startX, startY := Max(0, x), Max(0, y);
    var endX := Max(0, Min(x + width, WIDTH));
    var endY := Max(0, Min(y + height, HEIGHT));
    var yy := startY;
    while yy < endY
      invariant startY <= yy && (yy <= endY || yy == startY) && canvas.Valid()
      invariant forall px, py ::
                  canvas.view(px, py) == (if startX <= px < endX && startY <= py < yy
                                          then color else old(canvas.view)(px, py))
    {
      canvas.DrawHLine(color, startX, yy, endX);
      yy := yy + 1;
    }
  }

  /** The left and right edges. */
  method StrokeSides(canvas: Canvas, color: Color, x: int, y: int, width: int, height: int)
    requires canvas.Valid()
    modifies canvas`view, canvas.data
    ensures canvas.Valid()
    ensures forall px, py | OnScreen(px, py) ::
              canvas.view(px, py) == (if y <= py < y + height && (px == x || px == x + width - 1)
                                      then color else old(canvas.view)(px, py))
  {
    var startY := Max(0, y);
    var endXUnclamped := x + width;
    var endY := Max(0, Min(y + height, HEIGHT));
    if x >= 0 && x < WIDTH {
      DrawVRun(canvas, color, x, startY, endY);
    }
    if endXUnclamped > 0 && endXUnclamped <= WIDTH {
      DrawVRun(canvas, color, endXUnclamped - 1, startY, endY);
    }
  }

  /** The top and bottom edges. */
  method StrokeEnds(canvas: Canvas, color: Color, x: int, y: int, width: int, height: int)
    requires canvas.Valid()
    modifies canvas`view, canvas.data
    ensures canvas.Valid()
    ensures forall px, py | OnScreen(px, py) ::
              canvas.view(px, py) == (if x <= px < x + width && (py == y || py == y + height - 1)
                                      then color else old(canvas.view)(px, py))
  {
    var startX := Max(0, x);
    var endX := Max(0, Min(x + width, WIDTH));
    var endYUnclamped := y + height;
    if y >= 0 && y < HEIGHT {
      canvas.DrawHLine(color, startX, y, endX);
    }
    if endYUnclamped > 0 && endYUnclamped <= HEIGHT {
      canvas.DrawHLine(color, startX, endYUnclamped - 1, endX);
    }
  }

  /** For a real rectangle the stroke is exactly its edge: the pixels with a neighbour outside. */
  lemma BorderIsTheEdge(px: int, py: int, x: int, y: int, width: int, height: int)
    requires width >= 1 && height >= 1
    ensures OnBorder(px, py, x, y, width, height)
       <==> && InRect(px, py, x, y, width, height)
            && !(&& InRect(px - 1, py, x, y, width, height)
                 && InRect(px + 1, py, x, y, width, height)
                 && InRect(px, py - 1, x, y, width, height)
                 && InRect(px, py + 1, x, y, width, height))
  {
  }

  /** The stroke keeps inside the rectangle exactly when both sizes are positive or neither is:
      with one size positive the code still draws edges of an empty rectangle. */
  lemma StrokeStaysInsideIff(x: int, y: int, width: int, height: int)
    ensures (forall px, py :: OnBorder(px, py, x, y, width, height) ==> InRect(px, py, x, y, width, height))
       <==> (width > 0 <==> height > 0)
  {
    if (width > 0) != (height > 0) {
      assert OnBorder(x, y, x, y, width, height);
      assert !InRect(x, y, x, y, width, height);
    }
  }
}
