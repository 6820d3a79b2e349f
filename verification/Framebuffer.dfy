/// The packed framebuffer of the WASM-4 rasteriser: 160x160 pixels, two bits
/// each, four to a byte.  Every drawing routine below changes the byte array
/// in place; what it has painted is stated about `view`, the picture a reader
/// of the array sees.
module Framebuffer {
  import opened Arithmetic
  import opened ByteBits

  const WIDTH := 160
  const HEIGHT := 160

  /** A two-bit palette index, held in a byte as the source holds it. */
  type Color = c: bv8 | c < 4

  /** A picture assigns a colour to every pixel of the plane. */
  type Picture = (int, int) -> Color

  /** A picture with one pixel changed. */
  function SetPixel(pic: Picture, x: int, y: int, color: Color): Picture {
    (px: int, py: int) => if px == x && py == y then color else pic(px, py)
  }

  predicate OnScreen(x: int, y: int) {
    0 <= x < WIDTH && 0 <= y < HEIGHT
  }

  /** The two bits a reader takes out of a byte for the pixel at offset k. */
  function Crumb(b: bv8, k: nat): Color
    requires k < 4
  {
    (b >> (2 * k)) & 3
  }

  /** The byte drawPoint stores: colour c at offset k, the other six bits of b. */
  function WithCrumb(b: bv8, k: nat, c: Color): bv8
    requires k < 4
  {
    (c << (2 * k)) | (b & !(3 << (2 * k)))
  }

  /** A byte with the same colour in all four pixels. */
  function Fill(c: Color): bv8 {
    c * 0x55
  }

  /** The colour a four-bit draw colour stands for; 0 wraps round to 3. */
  function Ink(dc: bv8): Color {
    (dc - 1) & 3
  }

  /** As a number: 1, 2, 3 and 4 are the palette indexes 0, 1, 2 and 3. */
  lemma InkAsNumber(dc: bv8)
    ensures Ink(dc) as int == (dc as int - 1) % 4
  {
  }

  lemma WriteThenRead(b: bv8, k: nat, c: Color, j: nat)
    requires k < 4 && j < 4
    ensures Crumb(WithCrumb(b, k, c), j) == if j == k then c else Crumb(b, j)
  {
    hide Crumb, WithCrumb;
    if k == 0 {
      WriteFirst(b, c, j);
    } else if k == 1 {
      WriteSecond(b, c, j);
    } else if k == 2 {
      WriteThird(b, c, j);
    } else {
      WriteFourth(b, c, j);
    }
  }

  lemma WriteFirst(b: bv8, c: Color, j: nat)
    requires j < 4
    ensures Crumb(WithCrumb(b, 0, c), j) == if j == 0 then c else Crumb(b, j)
  {
    assert j == 0 || j == 1 || j == 2 || j == 3;
  }

  lemma WriteSecond(b: bv8, c: Color, j: nat)
    requires j < 4
    ensures Crumb(WithCrumb(b, 1, c), j) == if j == 1 then c else Crumb(b, j)
  {
    assert j == 0 || j == 1 || j == 2 || j == 3;
  }

  lemma WriteThird(b: bv8, c: Color, j: nat)
    requires j < 4
    ensures Crumb(WithCrumb(b, 2, c), j) == if j == 2 then c else Crumb(b, j)
  {
    assert j == 0 || j == 1 || j == 2 || j == 3;
  }

  lemma WriteFourth(b: bv8, c: Color, j: nat)
    requires j < 4
    ensures Crumb(WithCrumb(b, 3, c), j) == if j == 3 then c else Crumb(b, j)
  {
    assert j == 0 || j == 1 || j == 2 || j == 3;
  }

  lemma FillReads(c: Color, j: nat)
    requires j < 4
    ensures Crumb(Fill(c), j) == c
  {
    assert j == 0 || j == 1 || j == 2 || j == 3;
    assert c == 0 || c == 1 || c == 2 || c == 3;
  }

  /** The pixel at offset k of a byte is its k-th digit in base four, the lowest first. */
  lemma CrumbIsDigit(b: bv8, k: nat)
    requires k < 4
    ensures Pow2(2 * k) > 0 && Crumb(b, k) as int == b as int / Pow2(2 * k) % 4
  {
    ShiftDown(b, 2 * k);
    LowPair(b >> (2 * k));
  }

  function Max(a: int, b: int): int { if a > b then a else b }

  function Min(a: int, b: int): int { if a < b then a else b }

  function Abs(a: int): int { if a < 0 then -a else a }

  class Canvas {
    const data: array<bv8>
    var drawColors: seq<bv8>
    ghost var view: Picture

    ghost predicate Valid()
      reads this, data
    {
      && data.Length == WIDTH * HEIGHT / 4
      && |drawColors| == 2
      && forall x, y :: OnScreen(x, y) ==> view(x, y) == Crumb(data[(WIDTH * y + x) / 4], x % 4)
    }

    /** The first draw colour: the stroke of lines, the fill of shapes. */
    function Dc0(): bv8
      reads this
      requires |drawColors| == 2
    {
      drawColors[0] & 0xf
    }

    /** The second draw colour: the stroke of shapes. */
    function Dc1(): bv8
      reads this
      requires |drawColors| == 2
    {
      (drawColors[0] >> 4) & 0xf
    }

    constructor (memory: array<bv8>, colors: seq<bv8>)
      requires memory.Length == WIDTH * HEIGHT / 4 && |colors| == 2
      ensures Valid() && data == memory && drawColors == colors
    {
      hide Crumb;
      data := memory;
      drawColors := colors;
      ghost var bytes := memory[..];
      view := (x: int, y: int) => if OnScreen(x, y) then Crumb(bytes[(WIDTH * y + x) / 4], x % 4) else 0;
    }

    method Clear()
      requires Valid()
      modifies this`view, data
      ensures Valid()
      ensures forall px, py ::
                view(px, py) == (if OnScreen(px, py) then 0 else old(view)(px, py))
    {
      forall i | 0 <= i < data.Length {
        data[i] := 0;
      }
      ghost var was := view;
      view := (px: int, py: int) => if OnScreen(px, py) then 0 else was(px, py);
      forall x, y | OnScreen(x, y)
        ensures view(x, y) == Crumb(data[(WIDTH * y + x) / 4], x % 4)
      {
        FillReads(0, x % 4);
      }
    }

    method DrawPoint(color: Color, x: int, y: int)
      requires Valid() && OnScreen(x, y)
      modifies this`view, data
      ensures Valid()
      ensures forall px, py ::
                view(px, py) == (if px == x && py == y then color else old(view)(px, py))
    {
      hide Crumb, WithCrumb;
      var idx := (WIDTH * y + x) / 4;
      var shift := x % 4;
      data[idx] := WithCrumb(data[idx], shift, color);
      ghost var was := view;
      view := SetPixel(was, x, y, color);
      forall px, py | OnScreen(px, py)
        ensures view(px, py) == Crumb(data[(WIDTH * py + px) / 4], px % 4)
      {
        var i := (WIDTH * py + px) / 4;
        if i == idx {
          SameByte(px, py, x, y);
          WriteThenRead(old(data[idx]), shift, color, px % 4);
          SamePixel(px, x);
        } else {
          assert data[i] == old(data[i]);
        }
      }
    }

    method DrawPointUnclipped(color: Color, x: int, y: int)
      requires Valid()
      modifies this`view, data
      ensures Valid()
      ensures forall px, py | OnScreen(px, py) ::
                view(px, py) == (if px == x && py == y then color else old(view)(px, py))
    {
      if x >= 0 && x < WIDTH && y >= 0 && y < HEIGHT {
        DrawPoint(color, x, y);
      }
    }

    /** The block fill of drawHLine: whole bytes `from <= i < to`. */
    method Memset(from: nat, to: nat, color: Color, y: int)
      requires Valid() && 0 <= y < HEIGHT
      requires WIDTH / 4 * y <= from <= to <= WIDTH / 4 * (y + 1)
      modifies this`view, data
      ensures Valid()
      ensures forall px, py ::
                view(px, py) == (if InBytes(px, py, from, to, y) then color else old(view)(px, py))
    {
      forall i | from <= i < to {
        data[i] := Fill(color);
      }
      ghost var was := view;
      view := (px: int, py: int) => if InBytes(px, py, from, to, y) then color else was(px, py);
      forall px, py | OnScreen(px, py)
        ensures view(px, py) == Crumb(data[(WIDTH * py + px) / 4], px % 4)
      {
        InBytesIffByteFilled(px, py, from, to, y);
        FillReads(color, px % 4);
      }
    }

    method DrawHLine(color: Color, startX: int, y: int, endX: int)
      requires Valid() && 0 <= y < HEIGHT && 0 <= startX && 0 <= endX <= WIDTH
      modifies this`view, data
      ensures Valid()
      ensures forall px, py ::
                view(px, py) == (if py == y && startX <= px < endX then color else old(view)(px, py))
    {
      var fillEnd := endX - endX % 4;
      var fillStart := Min((startX + 3) - (startX + 3) % 4, fillEnd);
      var tail := startX;
      if fillEnd - fillStart > 3 {
        DrawRun(color, startX, y, fillStart);
        ByteOfPixel(fillStart, y);
        ByteOfPixel(fillEnd, y);
        Memset((WIDTH * y + fillStart) / 4, (WIDTH * y + fillEnd) / 4, color, y);
        tail := fillEnd;
      }
      DrawRun(color, tail, y, endX);
    }

    /** The pixel-by-pixel loop at either end of a span. */
    method DrawRun(color: Color, from: int, y: int, to: int)
      requires Valid() && 0 <= y < HEIGHT && 0 <= from && to <= WIDTH
      modifies this`view, data
      ensures Valid()
      ensures forall px, py ::
                view(px, py) == (if py == y && from <= px < to then color else old(view)(px, py))
    {
      var xx := from;
      while xx < to
        invariant from <= xx && (xx <= to || xx == from) && Valid()
        invariant forall px, py ::
                    view(px, py) == (if py == y && from <= px < xx then color else old(view)(px, py))
      {
        DrawPoint(color, xx, y);
        xx := xx + 1;
      }
    }

    method DrawHLineUnclipped(color: Color, startX: int, y: int, endX: int)
      requires Valid()
      modifies this`view, data
      ensures Valid()
      ensures forall px, py | OnScreen(px, py) ::
                view(px, py) == (if py == y && startX <= px < endX then color else old(view)(px, py))
    {
      if y >= 0 && y < HEIGHT {
        var from := if startX < 0 then 0 else startX;
        var to := if endX > WIDTH then WIDTH else endX;
        if from < to {
          DrawHLine(color, from, y, to);
        }
      }
    }
  }

  /** What a reader of the bytes sees: a row is forty bytes of four pixels, the first one in the two
      lowest bits. */
  lemma ViewIsDigit(canvas: Canvas, x: int, y: int)
    requires canvas.Valid() && OnScreen(x, y)
    ensures Pow2(2 * (x % 4)) > 0
    ensures canvas.view(x, y) as int == canvas.data[40 * y + x / 4] as int / Pow2(2 * (x % 4)) % 4
  {
    hide Crumb;
    assert (WIDTH * y + x) / 4 == 40 * y + x / 4;
    CrumbIsDigit(canvas.data[40 * y + x / 4], x % 4);
  }

  /** The two draw colours are the low and the high hexadecimal digit of the first byte. */
  lemma DrawColorsAsNumbers(canvas: Canvas)
    requires canvas.Valid()
    ensures canvas.Dc0() as int == canvas.drawColors[0] as int % 16
    ensures canvas.Dc1() as int == canvas.drawColors[0] as int / 16
  {
    NibblesOf(canvas.drawColors[0]);
  }

  /** A pixel at a multiple of four starts a byte. */
  lemma ByteOfPixel(x: int, y: int)
    requires x % 4 == 0
    ensures 4 * ((WIDTH * y + x) / 4) == WIDTH * y + x
  {
    assert WIDTH * y + x == 4 * (40 * y + x / 4);
  }

  lemma SamePixel(px: nat, x: nat)
    requires px / 4 == x / 4
    ensures px % 4 == x % 4 <==> px == x
  {
  }

  /** The pixels of row y that live in the bytes from <= i < to. */
  predicate InBytes(px: int, py: int, from: int, to: int, y: int) {
    py == y && 4 * from <= WIDTH * y + px < 4 * to
  }

  lemma InBytesIffByteFilled(px: int, py: int, from: int, to: int, y: int)
    requires OnScreen(px, py) && 0 <= y < HEIGHT
    requires WIDTH / 4 * y <= from <= to <= WIDTH / 4 * (y + 1)
    ensures InBytes(px, py, from, to, y) <==> from <= (WIDTH * py + px) / 4 < to
  {
    assert (WIDTH * py + px) / 4 == 40 * py + px / 4;
    if py < y {
      assert 40 * py + px / 4 < 40 * y;
    } else if py > y {
      assert 40 * py + px / 4 >= 40 * (y + 1);
    }
  }

  /** Two pixels of one byte lie on one row, because a row is a whole number of bytes. */
  lemma SameByte(px: int, py: int, x: int, y: int)
    requires OnScreen(px, py) && OnScreen(x, y)
    requires (WIDTH * py + px) / 4 == (WIDTH * y + x) / 4
    ensures py == y && px / 4 == x / 4
  {
    assert (WIDTH * py + px) / 4 == 40 * py + px / 4;
    assert (WIDTH * y + x) / 4 == 40 * y + x / 4;
  }
}
