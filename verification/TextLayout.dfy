/// Text: one 8x8 blit from the font for every printable character, at a cursor
/// that moves right, and down at a newline.
module TextLayout {
  import opened Framebuffer
  import opened SpriteBlit
  import opened Arithmetic
  import opened ByteBits

  const NEWLINE := 10
  const FONT_SIZE := 1792

  predicate Printable(c: nat) { 32 <= c <= 255 }

  datatype Cursor = Cursor(x: int, y: int)

  /** The cursor before character k of a text that starts at (x, y). */
  function At(x: int, y: int, text: seq<nat>, k: nat): Cursor
    requires k <= |text|
  {
    if k == 0 then Cursor(x, y)
    else
      var before := At(x, y, text, k - 1);
      if text[k - 1] == NEWLINE then Cursor(x, before.y + 8) else Cursor(before.x + 8, before.y)
  }

  /** The blit of a character at a cursor: eight rows of the font, one byte each. */
  function Glyph(c: nat, at: Cursor): Blit
    requires Printable(c)
  {
    Blit(at.x, at.y, 8, 8, 0, (c - 32) * 8, 8, false, false, false, false)
  }

  lemma GlyphFits(c: nat, at: Cursor, font: seq<bv8>)
    requires Printable(c) && |font| == FONT_SIZE
    ensures Glyph(c, at).Fits(font)
  {
  }

  predicate InCell(px: int, py: int, at: Cursor) {
    at.x <= px < at.x + 8 && at.y <= py < at.y + 8
  }

  /** What a glyph makes of a pixel. */
  function GlyphColor(was: Color, c: nat, at: Cursor, font: seq<bv8>, colors: seq<bv8>, px: int, py: int): (r: Color)
    requires |font| == FONT_SIZE && |colors| == 2 && OnScreen(px, py)
    ensures !InCell(px, py, at) || !Printable(c) ==> r == was
  {
    if Printable(c) then GlyphFits(c, at, font); BlitColor(was, Glyph(c, at), font, colors, px, py) else was
  }

  /** What the first n characters make of a pixel, one glyph drawn over the other. */
  function TextColor(was: Color, x: int, y: int, text: seq<nat>, n: nat, font: seq<bv8>, colors: seq<bv8>,
                     px: int, py: int): Color
    requires n <= |text| && |font| == FONT_SIZE && |colors| == 2 && OnScreen(px, py)
  {
    if n == 0 then was
    else
      var before := TextColor(was, x, y, text, n - 1, font, colors, px, py);
      GlyphColor(before, text[n - 1], At(x, y, text, n - 1), font, colors, px, py)
  }

  /** The characters in front of the first zero. */
  function Visible(str: seq<nat>): (n: nat)
    ensures n <= |str| && (forall k | 0 <= k < n :: str[k] != 0) && (n < |str| ==> str[n] == 0)
  {
    if str == [] || str[0] == 0 then 0 else 1 + Visible(str[1..])
  }

  /** The body of the text loops: one character, and the cursor behind it. */
  method DrawChar(canvas: Canvas, font: seq<bv8>, c: nat, x: int, currentX: int, currentY: int)
    returns (nextX: int, nextY: int)
    requires canvas.Valid() && |font| == FONT_SIZE
    modifies canvas`view, canvas.data
    ensures canvas.Valid()
    ensures Cursor(nextX, nextY) == if c == NEWLINE then Cursor(x, currentY + 8) else Cursor(currentX + 8, currentY)
    ensures forall px, py | OnScreen(px, py) ::
              canvas.view(px, py)
              == GlyphColor(old(canvas.view)(px, py), c, Cursor(currentX, currentY), font, canvas.drawColors, px, py)
  {
    hide BlitColor;
    nextX, nextY := currentX, currentY;
    if c == NEWLINE {
      nextY := nextY + 8;
      nextX := x;
    } else if c >= 32 && c <= 255 {
      GlyphFits(c, Cursor(currentX, currentY), font);
      DrawBlit(canvas, font, Glyph(c, Cursor(currentX, currentY)));
      nextX := nextX + 8;
    } else {
      nextX := nextX + 8;
    }
  }

  method DrawText(canvas: Canvas, font: seq<bv8>, str: seq<nat>, x: int, y: int)
    requires canvas.Valid() && |font| == FONT_SIZE
    modifies canvas`view, canvas.data
    ensures canvas.Valid()
    ensures forall px, py | OnScreen(px, py) ::
              canvas.view(px, py)
              == TextColor(old(canvas.view)(px, py), x, y, str, Visible(str), font, canvas.drawColors, px, py)
  {
    hide GlyphColor, Visible;
    var currentX, currentY, k := x, y, 0;
    while k < |str| && str[k] != 0
      invariant 0 <= k <= |str| && canvas.Valid() && Cursor(currentX, currentY) == At(x, y, str, k)
      invariant forall i | 0 <= i < k :: str[i] != 0
      invariant forall px, py | OnScreen(px, py) ::
                  canvas.view(px, py)
                  == TextColor(old(canvas.view)(px, py), x, y, str, k, font, canvas.drawColors, px, py)
    {
      currentX, currentY := DrawChar(canvas, font, str[k], x, currentX, currentY);
      k := k + 1;
    }
    VisibleIs(str, k);
  }

  /** The characters drawn of a text with a limit: those in front of the first zero and of the limit. */
  function Limited(str: seq<nat>, limit: int): (n: nat)
    ensures n <= |str|
  {
    Min(Visible(str), Max(0, limit))
  }

  /** One byte a character. */
  method DrawTextUtf8(canvas: Canvas, font: seq<bv8>, str: seq<nat>, byteLength: int, x: int, y: int)
    requires canvas.Valid() && |font| == FONT_SIZE
    modifies canvas`view, canvas.data
    ensures canvas.Valid()
    ensures forall px, py | OnScreen(px, py) ::
              canvas.view(px, py)
              == TextColor(old(canvas.view)(px, py), x, y, str, Limited(str, byteLength), font, canvas.drawColors, px, py)
  {
    hide GlyphColor, Limited;
    var currentX, currentY, k, left := x, y, 0, byteLength;
    while left > 0 && k < |str| && str[k] != 0
      invariant 0 <= k <= |str| && canvas.Valid() && Cursor(currentX, currentY) == At(x, y, str, k)
      invariant (forall i | 0 <= i < k :: str[i] != 0) && left == byteLength - k && k <= Max(0, byteLength)
      invariant forall px, py | OnScreen(px, py) ::
                  canvas.view(px, py)
                  == TextColor(old(canvas.view)(px, py), x, y, str, k, font, canvas.drawColors, px, py)
    {
      currentX, currentY := DrawChar(canvas, font, str[k], x, currentX, currentY);
      k := k + 1;
      left := left - 1;
    }
    LimitedIs(str, k, byteLength);
  }

  /** Two bytes a character: with an odd number of bytes the last character is one the length covers
      only half of. */
  method DrawTextUtf16(canvas: Canvas, font: seq<bv8>, str: seq<nat>, byteLength: int, x: int, y: int)
    requires canvas.Valid() && |font| == FONT_SIZE
    modifies canvas`view, canvas.data
    ensures canvas.Valid()
    ensures var n := Limited(str, (byteLength + 1) / 2);
            forall px, py | OnScreen(px, py) ::
              canvas.view(px, py)
              == TextColor(old(canvas.view)(px, py), x, y, str, n, font, canvas.drawColors, px, py)
  {
    hide GlyphColor, Limited;
    var currentX, currentY, k, left := x, y, 0, byteLength;
    while left > 0 && k < |str| && str[k] != 0
      invariant 0 <= k <= |str| && canvas.Valid() && Cursor(currentX, currentY) == At(x, y, str, k)
      invariant (forall i | 0 <= i < k :: str[i] != 0) && left == byteLength - 2 * k && k <= Max(0, (byteLength + 1) / 2)
      invariant forall px, py | OnScreen(px, py) ::
                  canvas.view(px, py)
                  == TextColor(old(canvas.view)(px, py), x, y, str, k, font, canvas.drawColors, px, py)
    {
      currentX, currentY := DrawChar(canvas, font, str[k], x, currentX, currentY);
      k := k + 1;
      left := left - 2;
    }
    LimitedIs(str, k, (byteLength + 1) / 2);
  }

  lemma VisibleIs(str: seq<nat>, k: nat)
    requires k <= |str| && (forall i | 0 <= i < k :: str[i] != 0) && (k < |str| ==> str[k] == 0)
    ensures Visible(str) == k
  {
  }

  lemma LimitedIs(str: seq<nat>, k: nat, limit: int)
    requires k <= |str| && (forall i | 0 <= i < k :: str[i] != 0) && k <= Max(0, limit)
    requires k < |str| && k < limit ==> str[k] == 0
    ensures Limited(str, limit) == k
  {
  }

  /** The length of a UTF-16 text covers all characters drawn if and only if it is even, not positive, or
      the text ends before. */
  lemma Utf16CoveredIff(str: seq<nat>, byteLength: int)
    ensures Limited(str, (byteLength + 1) / 2) <= Max(0, byteLength / 2)
       <==> byteLength <= 0 || byteLength % 2 == 0 || Visible(str) <= byteLength / 2
  {
  }

  /** One byte of an A draws an A. */
  lemma HalfACharacter()
    ensures Limited([65], (1 + 1) / 2) == 1 && Max(0, 1 / 2) == 0
  {
    LimitedIs([65], 1, 1);
  }

  /** The cursor only moves to cells that do not touch the ones before. */
  lemma {:induction false} CellsAreApart(x: int, y: int, text: seq<nat>, j: nat, k: nat)
    requires j < k <= |text|
    ensures var a, b := At(x, y, text, j), At(x, y, text, k);
            a.y + 8 <= b.y || (a.y == b.y && a.x + 8 <= b.x)
    decreases k
  {
    if j < k - 1 {
      CellsAreApart(x, y, text, j, k - 1);
    }
  }

  /** Where character k stands: eight pixels to the right for every character since the start of its
      line, and eight down for every newline before. */
  lemma {:induction false} CellOf(x: int, y: int, text: seq<nat>, k: nat, start: nat)
    requires start <= k <= |text|
    requires start == 0 || text[start - 1] == 10
    requires forall i | start <= i < k :: text[i] != 10
    ensures At(x, y, text, k).x == x + 8 * (k - start)
    ensures At(x, y, text, k).y == y + 8 * multiset(text[..k])[10]
    decreases k
  {
    if k > 0 {
      assert text[..k] == text[..k - 1] + [text[k - 1]];
      var before := LineStart(text, k - 1);
      CellOf(x, y, text, k - 1, if start < k then start else before);
    }
  }

  lemma {:induction false} LineStart(text: seq<nat>, k: nat) returns (start: nat)
    requires k <= |text|
    ensures start <= k && (start == 0 || text[start - 1] == 10) && forall i | start <= i < k :: text[i] != 10
  {
    if k == 0 || text[k - 1] == 10 {
      start := k;
    } else {
      start := LineStart(text, k - 1);
    }
  }

  /** The picture of a character: pixel (u, v) of its cell is bit 7 - u of row v of its eight bytes of
      the font.  The ones of the font are drawn in the second draw colour, the zeros in the first. */
  lemma GlyphIsItsRows(was: Color, c: nat, at: Cursor, font: seq<bv8>, colors: seq<bv8>, u: nat, v: nat)
    requires Printable(c) && |font| == FONT_SIZE && |colors| == 2
    requires u < 8 && v < 8 && OnScreen(at.x + u, at.y + v)
    ensures Pow2(7 - u) > 0
    ensures var bit := font[8 * (c - 32) + v] as int / Pow2(7 - u) % 2;
            var dc := if bit == 1 then colors[0] as int / 16 else colors[0] as int % 16;
            GlyphColor(was, c, at, font, colors, at.x + u, at.y + v) as int
            == if dc == 0 then was as int else (dc - 1) % 4
  {
    hide BlitColor, DrawColor, Ink, Blit.Fits;
    GlyphFits(c, at, font);
    var b := Glyph(c, at);
    ShownUpright(was, b, font, colors, u, v);
    GlyphDrawColor(c, at, font, colors, u, v);
    InkAsNumber(DrawColor(b, font, colors, u, v));
  }

  lemma GlyphDrawColor(c: nat, at: Cursor, font: seq<bv8>, colors: seq<bv8>, u: nat, v: nat)
    requires Printable(c) && |font| == FONT_SIZE && |colors| == 2 && u < 8 && v < 8
    ensures Glyph(c, at).ByteIndex(u, v) == 8 * (c - 32) + v && Pow2(7 - u) > 0
    ensures DrawColor(Glyph(c, at), font, colors, u, v) as int
         == if font[8 * (c - 32) + v] as int / Pow2(7 - u) % 2 == 1 then colors[0] as int / 16 else colors[0] as int % 16
  {
    hide Sample;
    var b := Glyph(c, at);
    assert b.BitIndex(u, v) == 8 * (8 * (c - 32) + v) + u;
    BitOfByte(font[8 * (c - 32) + v], u);
    NibblesOf(colors[0]);
  }

  /** No two characters share a pixel: in the cell of character k the picture is that character alone
      on the background. */
  lemma {:induction false} CellShowsItsCharacter(was: Color, x: int, y: int, text: seq<nat>, n: nat, k: nat,
                                                 font: seq<bv8>, colors: seq<bv8>, px: int, py: int)
    requires k < n <= |text| && |font| == FONT_SIZE && |colors| == 2 && OnScreen(px, py)
    requires InCell(px, py, At(x, y, text, k))
    ensures TextColor(was, x, y, text, n, font, colors, px, py)
         == GlyphColor(was, text[k], At(x, y, text, k), font, colors, px, py)
    decreases n
  {
    hide BlitColor;
    if k < n - 1 {
      CellsAreApart(x, y, text, k, n - 1);
      CellShowsItsCharacter(was, x, y, text, n - 1, k, font, colors, px, py);
    } else {
      NothingBefore(was, x, y, text, k, k, font, colors, px, py);
    }
  }

  lemma {:induction false} NothingBefore(was: Color, x: int, y: int, text: seq<nat>, n: nat, k: nat,
                                         font: seq<bv8>, colors: seq<bv8>, px: int, py: int)
    requires n <= k < |text| && |font| == FONT_SIZE && |colors| == 2 && OnScreen(px, py)
    requires InCell(px, py, At(x, y, text, k))
    ensures TextColor(was, x, y, text, n, font, colors, px, py) == was
    decreases n
  {
    hide BlitColor;
    if n > 0 {
      CellsAreApart(x, y, text, n - 1, k);
      NothingBefore(was, x, y, text, n - 1, k, font, colors, px, py);
    }
  }
}
