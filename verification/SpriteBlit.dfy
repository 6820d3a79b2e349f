/// The sprite blit: clipped loops over the sprite against a picture that says,
/// pixel by pixel of the screen, which sprite pixel is seen there.
module SpriteBlit {
  import opened Framebuffer
  import opened Arithmetic
  import opened ByteBits

  /** The arguments of a blit. */
  datatype Blit = Blit(dstX: int, dstY: int, width: int, height: int,
                       srcX: int, srcY: int, srcStride: int,
                       bpp2: bool, flipX: bool, flipY: bool, rotate: bool) {

    predicate InSprite(x: int, y: int) { 0 <= x < width && 0 <= y < height }

    /** The loop coordinates (x, y) whose target is the pixel (px, py). */
    function LoopX(px: int, py: int): int { if rotate then py - dstY else px - dstX }

    function LoopY(px: int, py: int): int { if rotate then px - dstX else py - dstY }

    /** The pixel the loop coordinates (x, y) are drawn to. */
    function TargetX(x: int, y: int): int { dstX + (if rotate then y else x) }

    function TargetY(x: int, y: int): int { dstY + (if rotate then x else y) }

    /** The position, in pixels, of the sprite pixel for loop coordinates (x, y). */
    function BitIndex(x: int, y: int): int {
      var sx := srcX + (if flipX != rotate then width - x - 1 else x);
      var sy := srcY + (if flipY then height - y - 1 else y);
      sy * srcStride + sx
    }

    function ByteIndex(x: int, y: int): int {
      BitIndex(x, y) / (if bpp2 then 4 else 8)
    }

    /** Every sprite pixel that lands on the screen has its byte in the sprite. */
    ghost predicate Fits(sprite: seq<bv8>) {
      forall x, y | InSprite(x, y) && OnScreen(TargetX(x, y), TargetY(x, y)) ::
        0 <= ByteIndex(x, y) < |sprite|
    }
  }

  /** The k-th pixel of a byte: one or two bits, the first pixel in the high bits. */
  function Sample(byte: bv8, bpp2: bool, k: nat): (c: bv8)
    requires k < if bpp2 then 4 else 8
    ensures c < 4 && (!bpp2 ==> c < 2)
  {
    if bpp2 then (byte >> (6 - 2 * k)) & 3 else (byte >> (7 - k)) & 1
  }

  lemma BitOfByte(b: bv8, k: nat)
    requires k < 8
    ensures Pow2(7 - k) > 0 && Sample(b, false, k) as int == b as int / Pow2(7 - k) % 2
  {
    ShiftDown(b, 7 - k);
    LowBit(b >> (7 - k));
  }

  lemma PairOfByte(b: bv8, k: nat)
    requires k < 4
    ensures Pow2(6 - 2 * k) > 0 && Sample(b, true, k) as int == b as int / Pow2(6 - 2 * k) % 4
  {
    ShiftDown(b, 6 - 2 * k);
    LowPair(b >> (6 - 2 * k));
  }

  /** The sprite as one number, its first byte most significant. */
  function Number(sprite: seq<bv8>): nat {
    if sprite == [] then 0 else 256 * Number(sprite[..|sprite| - 1]) + (sprite[|sprite| - 1] as int)
  }

  /** The digits of that number: one for every pixel, in base two or four. */
  function Digits(sprite: seq<bv8>, bpp2: bool): nat {
    if bpp2 then 4 * |sprite| else 8 * |sprite|
  }

  /** The n-th of them, counted from the front. */
  function Digit(sprite: seq<bv8>, bpp2: bool, n: nat): (d: nat)
    requires n < Digits(sprite, bpp2)
    ensures d < 4 && (!bpp2 ==> d < 2)
  {
    var behind := Digits(sprite, bpp2) - 1 - n;
    Pow2Monotone(0, behind);
    Pow2Monotone(0, 2 * behind);
    if bpp2 then Number(sprite) / Pow2(2 * behind) % 4 else Number(sprite) / Pow2(behind) % 2
  }

  /** A byte behind a number: the high digits are those of the number. */
  lemma ByteBehind(a: nat, l: nat, p: nat)
    requires l < 256 && p > 0
    ensures (256 * a + l) / (256 * p) == a / p
  {
    var q, r := a / p, a % p;
    assert a == q * p + r;
    assert 256 * a + l == q * (256 * p) + (256 * r + l);
    RemainderIs(256 * a + l, 256 * p, q, 256 * r + l);
  }

  /** And the low ones those of the byte. */
  lemma LowDigit(a: nat, l: nat, p: nat, base: nat, q: nat)
    requires p > 0 && base > 0 && p * (base * q) == 256
    ensures (256 * a + l) / p % base == l / p % base
  {
    var c := a * (base * q);
    assert c * p == a * (p * (base * q)) == 256 * a;
    DivAddMultiple(c, p, l);
    assert c == (a * q) * base;
    DivAddMultiple(a * q, base, l / p);
  }

  lemma {:induction false} PowersFit(k: nat, n: nat)
    requires k < n
    ensures Pow2(k) > 0 && Pow2(k) * (2 * Pow2(n - 1 - k)) == Pow2(n)
  {
    Pow2Monotone(0, k);
    Pow2Product(k, n - k);
  }

  /** The pixels of a sprite are the digits of its number. */
  lemma {:induction false} SampleIsDigit(sprite: seq<bv8>, bpp2: bool, n: nat)
    requires n < Digits(sprite, bpp2)
    ensures var per := if bpp2 then 4 else 8;
            n / per < |sprite| && Sample(sprite[n / per], bpp2, n % per) as int == Digit(sprite, bpp2, n)
  {
    hide Sample, Pow2;
    var front, last := sprite[..|sprite| - 1], sprite[|sprite| - 1];
    var a, behind := Number(front), Digits(sprite, bpp2) - 1 - n;
    SmallPowers();
    if n < Digits(front, bpp2) {
      SampleIsDigit(front, bpp2, n);
      var rest := Digits(front, bpp2) - 1 - n;
      var bits := if bpp2 then 2 * rest else rest;
      Pow2Monotone(0, bits);
      Pow2Product(8, bits);
      ByteBehind(a, last as int, Pow2(bits));
    } else if bpp2 {
      PairOfByte(last, 3 - behind);
      LowDigit(a, last as int, Pow2(2 * behind), 4, Pow2(6 - 2 * behind)) by { Pow2Product(2 * behind, 8 - 2 * behind); Pow2Product(2, 6 - 2 * behind); }
    } else {
      BitOfByte(last, 7 - behind);
      LowDigit(a, last as int, Pow2(behind), 2, Pow2(7 - behind)) by { PowersFit(behind, 8); }
    }
  }

  /** The number the first n pixels spell, the first one most significant. */
  function Spelled(sprite: seq<bv8>, bpp2: bool, n: nat): nat
    requires n <= Digits(sprite, bpp2)
  {
    if n == 0 then 0
    else if bpp2 then 4 * Spelled(sprite, bpp2, n - 1) + (Sample(sprite[(n - 1) / 4], bpp2, (n - 1) % 4) as int)
    else 2 * Spelled(sprite, bpp2, n - 1) + (Sample(sprite[(n - 1) / 8], bpp2, (n - 1) % 8) as int)
  }

  lemma {:induction false} NumberBound(sprite: seq<bv8>)
    ensures Number(sprite) < Pow2(8 * |sprite|)
  {
    if sprite != [] {
      NumberBound(sprite[..|sprite| - 1]);
      Pow2Product(8, 8 * (|sprite| - 1));
      SmallPowers();
    }
  }

  lemma DigitMore(x: nat, p: nat)
    requires p > 0
    ensures x / p == 2 * (x / (2 * p)) + x / p % 2
    ensures x / p == 4 * (x / (4 * p)) + x / p % 4
  {
    HalfOf(x, p);
    HalfOf(x, 2 * p);
    Quarters(x / p);
  }

  lemma Quarters(q: nat)
    ensures q == 2 * (q / 2) + q % 2 && q == 4 * (q / 2 / 2) + q % 4
  {
  }

  lemma {:induction false} SpelledSoFar(sprite: seq<bv8>, bpp2: bool, n: nat)
    requires n <= Digits(sprite, bpp2)
    ensures var bits := (if bpp2 then 2 else 1) * (Digits(sprite, bpp2) - n);
            Pow2(bits) > 0 && Spelled(sprite, bpp2, n) == Number(sprite) / Pow2(bits)
  {
    hide Sample, Number;
    var bits := (if bpp2 then 2 else 1) * (Digits(sprite, bpp2) - n);
    Pow2Monotone(0, bits);
    if n == 0 {
      NumberBound(sprite);
      RemainderIs(Number(sprite), Pow2(bits), 0, Number(sprite));
    } else {
      SpelledSoFar(sprite, bpp2, n - 1);
      SampleIsDigit(sprite, bpp2, n - 1);
      DigitMore(Number(sprite), Pow2(bits));
      assert bpp2 ==> Pow2(bits + 2) == 4 * Pow2(bits);
    }
  }

  /** The pixels spell the number of the sprite, and of a single byte the byte. */
  lemma SamplesSpellTheSprite(sprite: seq<bv8>, bpp2: bool)
    ensures Spelled(sprite, bpp2, Digits(sprite, bpp2)) == Number(sprite)
    ensures |sprite| == 1 ==> Number(sprite) == sprite[0] as int
  {
    SpelledSoFar(sprite, bpp2, Digits(sprite, bpp2));
  }

  /** The draw colour a colour index selects: the index-th nibble of the two colour bytes. */
  function Nibble(colors: seq<bv8>, index: bv8): bv8
    requires |colors| == 2
  {
    if index == 0 then colors[0] & 0xf
    else if index == 1 then colors[0] >> 4
    else if index == 2 then colors[1] & 0xf
    else colors[1] >> 4
  }

  /** The same, as the source computes it: a shift of the two bytes taken as one 16-bit word. */
  function Lookup(colors: seq<bv8>, index: bv8): bv8
    requires |colors| == 2 && index < 4
  {
    var word := (colors[0] as bv16) | ((colors[1] as bv16) << 8);
    ((word >> ((index << 2) as bv16)) & 0xf) as bv8
  }

  lemma LookupIsNibble(colors: seq<bv8>, index: bv8)
    requires |colors| == 2 && index < 4
    ensures Lookup(colors, index) == Nibble(colors, index)
  {
    assert index == 0 || index == 1 || index == 2 || index == 3;
  }

  /** The draw colour of loop coordinates (x, y). */
  function DrawColor(b: Blit, sprite: seq<bv8>, colors: seq<bv8>, x: int, y: int): bv8
    requires |colors| == 2 && 0 <= b.ByteIndex(x, y) < |sprite|
  {
    Nibble(colors, Sample(sprite[b.ByteIndex(x, y)], b.bpp2, b.BitIndex(x, y) % (if b.bpp2 then 4 else 8)))
  }

  /** What the blit makes of the screen pixel (px, py): the sprite pixel seen there, unless there is
      none or it is transparent. */
  function BlitColor(was: Color, b: Blit, sprite: seq<bv8>, colors: seq<bv8>, px: int, py: int): Color
    requires |colors| == 2 && b.Fits(sprite) && OnScreen(px, py)
  {
    var x, y := b.LoopX(px, py), b.LoopY(px, py);
    if !b.InSprite(x, y) then was
    else
      assert b.TargetX(x, y) == px && b.TargetY(x, y) == py;
      var dc := DrawColor(b, sprite, colors, x, y);
      if dc == 0 then was else Ink(dc)
  }

  /** The picture after the rows above y and, on row y, the columns left of x have been drawn. */
  ghost predicate BlittedTo(now: Picture, was: Picture, b: Blit, sprite: seq<bv8>, colors: seq<bv8>, y: int, x: int)
    requires |colors| == 2 && b.Fits(sprite)
  {
    forall px, py | OnScreen(px, py) ::
      now(px, py) == (if b.LoopY(px, py) < y || (b.LoopY(px, py) == y && b.LoopX(px, py) < x)
                      then BlitColor(was(px, py), b, sprite, colors, px, py) else was(px, py))
  }

  method DrawBlit(canvas: Canvas, sprite: seq<bv8>, b: Blit)
    requires canvas.Valid() && b.Fits(sprite)
    modifies canvas`view, canvas.data
    ensures canvas.Valid()
    ensures forall px, py | OnScreen(px, py) ::
              canvas.view(px, py) == BlitColor(old(canvas.view)(px, py), b, sprite, canvas.drawColors, px, py)
  {
    var flipX := b.flipX;
    var clipXMin, clipYMin, clipXMax, clipYMax;
    if b.rotate {
      flipX := !flipX;
      clipXMin := Max(0, b.dstY) - b.dstY;
      clipYMin := Max(0, b.dstX) - b.dstX;
      clipXMax := Min(b.width, HEIGHT - b.dstY);
      clipYMax := Min(b.height, WIDTH - b.dstX);
    } else {
      clipXMin := Max(0, b.dstX) - b.dstX;
      clipYMin := Max(0, b.dstY) - b.dstY;
      clipXMax := Min(b.width, WIDTH - b.dstX);
      clipYMax := Min(b.height, HEIGHT - b.dstY);
    }
    ghost var was, colors := canvas.view, canvas.drawColors;

    var y := clipYMin;
    while y < clipYMax
      invariant clipYMin <= y && (y <= clipYMax || y == clipYMin) && canvas.Valid()
      invariant BlittedTo(canvas.view, was, b, sprite, colors, y, clipXMin)
    {
      var x := clipXMin;
      while x < clipXMax
        invariant clipXMin <= x && (x <= clipXMax || x == clipXMin) && canvas.Valid()
        invariant BlittedTo(canvas.view, was, b, sprite, colors, y, x)
      {
        DrawSpritePixel(canvas, sprite, b, flipX, x, y, was);
        x := x + 1;
      }
      y := y + 1;
    }
  }

  /** The body of the blit loops. */
  method DrawSpritePixel(canvas: Canvas, sprite: seq<bv8>, b: Blit, flipX: bool, x: int, y: int, ghost was: Picture)
    requires canvas.Valid() && b.Fits(sprite) && flipX == (b.flipX != b.rotate)
    requires b.InSprite(x, y) && OnScreen(b.TargetX(x, y), b.TargetY(x, y))
    requires BlittedTo(canvas.view, was, b, sprite, canvas.drawColors, y, x)
    modifies canvas`view, canvas.data
    ensures canvas.Valid()
    ensures BlittedTo(canvas.view, was, b, sprite, canvas.drawColors, y, x + 1)
  {
    hide Sample, Lookup, Nibble, BlittedTo, BlitColor;
    var tx := b.dstX + (if b.rotate then y else x);
    var ty := b.dstY + (if b.rotate then x else y);
    var sx := b.srcX + (if flipX then b.width - x - 1 else x);
    var sy := b.srcY + (if b.flipY then b.height - y - 1 else y);
    var bitIndex := sy * b.srcStride + sx;
    assert bitIndex == b.BitIndex(x, y) && 0 <= b.ByteIndex(x, y) < |sprite|;
    var colorIdx;
    if b.bpp2 {
      colorIdx := Sample(sprite[bitIndex / 4], true, bitIndex % 4);
    } else {
      colorIdx := Sample(sprite[bitIndex / 8], false, bitIndex % 8);
    }
    var dc := Lookup(canvas.drawColors, colorIdx);
    LookupIsNibble(canvas.drawColors, colorIdx);
    assert dc == DrawColor(b, sprite, canvas.drawColors, x, y);
    ghost var before := canvas.view;
    if dc != 0 {
      canvas.DrawPoint(Ink(dc), tx, ty);
    }
    PlotReaches(before, canvas.view, was, b, sprite, canvas.drawColors, x, y);
  }

  /** Plotting one more sprite pixel, wherever it lands. */
  lemma PlotReaches(before: Picture, now: Picture, was: Picture, b: Blit, sprite: seq<bv8>, colors: seq<bv8>,
                    x: int, y: int)
    requires |colors| == 2 && b.Fits(sprite) && b.InSprite(x, y)
    requires BlittedTo(before, was, b, sprite, colors, y, x)
    requires forall px, py | OnScreen(px, py) :: now(px, py) == Plot(before, b, sprite, colors, x, y)(px, py)
    ensures BlittedTo(now, was, b, sprite, colors, y, x + 1)
  {
    hide DrawColor;
  }

  /** The draw colours as one number, the second byte above the first; a colour index selects its
      hexadecimal digit. */
  function HexDigit(n: nat, d: nat): (dc: nat)
    ensures dc < 16
  {
    if d == 0 then n % 16 else HexDigit(n / 16, d - 1)
  }

  lemma FourDigits(low: nat, high: nat)
    requires low < 256 && high < 256
    ensures HexDigit(low + 256 * high, 0) == low % 16 && HexDigit(low + 256 * high, 1) == low / 16
    ensures HexDigit(low + 256 * high, 2) == high % 16 && HexDigit(low + 256 * high, 3) == high / 16
  {
    hide HexDigit;
    var n := low + 256 * high;
    Sixteenths(low, high);
    HexSteps(n, 0);
    HexSteps(n, 1);
    HexSteps(n, 2);
    HexSteps(n / 16, 0);
    HexSteps(n / 16, 1);
    HexSteps(high, 0);
    HexSteps(high / 16, 0);
  }

  lemma HexSteps(n: nat, d: nat)
    ensures HexDigit(n, 0) == n % 16 && HexDigit(n, d + 1) == HexDigit(n / 16, d)
  {
  }

  lemma Sixteenths(low: nat, high: nat)
    requires low < 256 && high < 256
    ensures (low + 256 * high) % 16 == low % 16 && (low + 256 * high) / 16 == low / 16 + 16 * high
    ensures (low / 16 + 16 * high) % 16 == low / 16 && (low / 16 + 16 * high) / 16 == high
    ensures high / 16 % 16 == high / 16
  {
  }

  lemma NibbleIsDigit(colors: seq<bv8>, index: bv8)
    requires |colors| == 2 && index < 4
    ensures Nibble(colors, index) as int == HexDigit((colors[0] as int) + 256 * (colors[1] as int), index as int)
  {
    hide HexDigit;
    NibblesOf(colors[0]);
    NibblesOf(colors[1]);
    FourDigits(colors[0] as int, colors[1] as int);
    assert index == 0 || index == 1 || index == 2 || index == 3;
  }

  /** The upright, unflipped picture: column u and row v show the draw colour that the digit of the
      sprite at this place of the source rectangle selects, and 0 is transparent. */
  lemma UprightShowsDigits(was: Color, b: Blit, sprite: seq<bv8>, colors: seq<bv8>, u: int, v: int)
    requires |colors| == 2 && b.Fits(sprite) && !b.rotate && !b.flipX && !b.flipY
    requires 0 <= u < b.width && 0 <= v < b.height && OnScreen(b.dstX + u, b.dstY + v)
    ensures var n := (b.srcY + v) * b.srcStride + (b.srcX + u);
            && 0 <= n < Digits(sprite, b.bpp2)
            && var dc := HexDigit((colors[0] as int) + 256 * (colors[1] as int), Digit(sprite, b.bpp2, n));
               BlitColor(was, b, sprite, colors, b.dstX + u, b.dstY + v) as int
               == if dc == 0 then was as int else (dc - 1) % 4
  {
    hide Sample, Nibble, Ink, Digit, HexDigit, DrawColor;
    ShownUpright(was, b, sprite, colors, u, v);
    DrawColorIsDigit(b, sprite, colors, u, v);
    InkAsNumber(DrawColor(b, sprite, colors, u, v));
  }

  lemma ShownUpright(was: Color, b: Blit, sprite: seq<bv8>, colors: seq<bv8>, u: int, v: int)
    requires |colors| == 2 && b.Fits(sprite) && !b.rotate && b.InSprite(u, v) && OnScreen(b.dstX + u, b.dstY + v)
    ensures 0 <= b.ByteIndex(u, v) < |sprite|
    ensures BlitColor(was, b, sprite, colors, b.dstX + u, b.dstY + v)
         == (var dc := DrawColor(b, sprite, colors, u, v); if dc == 0 then was else Ink(dc))
  {
    hide DrawColor, Ink, Blit.BitIndex;
    assert b.TargetX(u, v) == b.dstX + u && b.TargetY(u, v) == b.dstY + v;
  }

  lemma DrawColorIsDigit(b: Blit, sprite: seq<bv8>, colors: seq<bv8>, x: int, y: int)
    requires |colors| == 2 && 0 <= b.ByteIndex(x, y) < |sprite|
    ensures 0 <= b.BitIndex(x, y) < Digits(sprite, b.bpp2)
    ensures DrawColor(b, sprite, colors, x, y) as int
         == HexDigit((colors[0] as int) + 256 * (colors[1] as int), Digit(sprite, b.bpp2, b.BitIndex(x, y)))
  {
    hide Nibble, Digit, HexDigit, Blit.BitIndex;
    var n, per := b.BitIndex(x, y), if b.bpp2 then 4 else 8;
    SampleIsDigit(sprite, b.bpp2, n);
    NibbleIsDigit(colors, Sample(sprite[n / per], b.bpp2, n % per));
  }

  /** Outside its rectangle a blit leaves the picture as it is; a rotated one exchanges the sides. */
  lemma BlitStaysInRectangle(was: Color, b: Blit, sprite: seq<bv8>, colors: seq<bv8>, px: int, py: int)
    requires |colors| == 2 && b.Fits(sprite) && OnScreen(px, py)
    requires var w, h := if b.rotate then b.height else b.width, if b.rotate then b.width else b.height;
             !(b.dstX <= px < b.dstX + w && b.dstY <= py < b.dstY + h)
    ensures BlitColor(was, b, sprite, colors, px, py) == was
  {
  }

  /** The naive blit visits every sprite pixel and drops those that miss the screen. */
  ghost function Plot(pic: Picture, b: Blit, sprite: seq<bv8>, colors: seq<bv8>, x: int, y: int): Picture
    requires |colors| == 2 && b.Fits(sprite) && b.InSprite(x, y)
  {
    var tx, ty := b.TargetX(x, y), b.TargetY(x, y);
    if !OnScreen(tx, ty) then pic
    else
      var dc := DrawColor(b, sprite, colors, x, y);
      if dc == 0 then pic else SetPixel(pic, tx, ty, Ink(dc))
  }

  ghost function NaiveRow(pic: Picture, b: Blit, sprite: seq<bv8>, colors: seq<bv8>, y: int, n: int): Picture
    requires |colors| == 2 && b.Fits(sprite) && 0 <= y < b.height && n <= b.width
    decreases Max(0, n)
  {
    if n <= 0 then pic else Plot(NaiveRow(pic, b, sprite, colors, y, n - 1), b, sprite, colors, n - 1, y)
  }

  ghost function Naive(pic: Picture, b: Blit, sprite: seq<bv8>, colors: seq<bv8>, m: int): Picture
    requires |colors| == 2 && b.Fits(sprite) && m <= b.height
    decreases Max(0, m)
  {
    if m <= 0 then pic else NaiveRow(Naive(pic, b, sprite, colors, m - 1), b, sprite, colors, m - 1, b.width)
  }

  lemma {:induction false} NaiveRowReaches(pic: Picture, was: Picture, b: Blit, sprite: seq<bv8>, colors: seq<bv8>,
                                           y: int, n: int)
    requires |colors| == 2 && b.Fits(sprite) && 0 <= y < b.height && n <= b.width
    requires BlittedTo(pic, was, b, sprite, colors, y, 0)
    ensures BlittedTo(NaiveRow(pic, b, sprite, colors, y, n), was, b, sprite, colors, y, n)
    decreases Max(0, n)
  {
    hide Plot, BlittedTo;
    if n > 0 {
      NaiveRowReaches(pic, was, b, sprite, colors, y, n - 1);
      var before := NaiveRow(pic, b, sprite, colors, y, n - 1);
      PlotReaches(before, Plot(before, b, sprite, colors, n - 1, y), was, b, sprite, colors, n - 1, y);
    } else {
      NothingInRow(pic, was, b, sprite, colors, y, n);
    }
  }

  lemma NothingInRow(pic: Picture, was: Picture, b: Blit, sprite: seq<bv8>, colors: seq<bv8>, y: int, n: int)
    requires |colors| == 2 && b.Fits(sprite) && n <= 0 && BlittedTo(pic, was, b, sprite, colors, y, 0)
    ensures BlittedTo(pic, was, b, sprite, colors, y, n)
  {
  }

  lemma {:induction false} NaiveReaches(was: Picture, b: Blit, sprite: seq<bv8>, colors: seq<bv8>, m: int)
    requires |colors| == 2 && b.Fits(sprite) && m <= b.height
    ensures BlittedTo(Naive(was, b, sprite, colors, m), was, b, sprite, colors, m, 0)
    decreases Max(0, m)
  {
    if m > 0 {
      NaiveReaches(was, b, sprite, colors, m - 1);
      NaiveRowReaches(Naive(was, b, sprite, colors, m - 1), was, b, sprite, colors, m - 1, b.width);
    }
  }

  /** Clipping only saves work: the naive blit leaves the same picture. */
  lemma NaiveBlitIsTheSame(was: Picture, b: Blit, sprite: seq<bv8>, colors: seq<bv8>, px: int, py: int)
    requires |colors| == 2 && b.Fits(sprite) && OnScreen(px, py)
    ensures Naive(was, b, sprite, colors, b.height)(px, py) == BlitColor(was(px, py), b, sprite, colors, px, py)
  {
    NaiveReaches(was, b, sprite, colors, b.height);
  }

  /** `rotate` turns the sprite a quarter to the left: the sprite pixel in column u and row v of the
      upright picture is seen in column v of row width - 1 - u. */
  lemma RotateTurnsLeft(was: Color, b: Blit, sprite: seq<bv8>, colors: seq<bv8>, u: int, v: int)
    requires |colors| == 2 && !b.rotate && b.InSprite(u, v)
    requires b.Fits(sprite) && b.(rotate := true).Fits(sprite)
    requires OnScreen(b.dstX + u, b.dstY + v) && OnScreen(b.dstX + v, b.dstY + b.width - 1 - u)
    ensures BlitColor(was, b.(rotate := true), sprite, colors, b.dstX + v, b.dstY + b.width - 1 - u)
         == BlitColor(was, b, sprite, colors, b.dstX + u, b.dstY + v)
  {
    hide Sample, Nibble, Ink;
    var r := b.(rotate := true);
    assert r.BitIndex(b.width - 1 - u, v) == b.BitIndex(u, v);
  }

  /** `flipX` mirrors the upright picture left to right. */
  lemma FlipXMirrors(was: Color, b: Blit, sprite: seq<bv8>, colors: seq<bv8>, u: int, v: int)
    requires |colors| == 2 && !b.rotate && !b.flipX && b.InSprite(u, v)
    requires b.Fits(sprite) && b.(flipX := true).Fits(sprite)
    requires OnScreen(b.dstX + u, b.dstY + v) && OnScreen(b.dstX + b.width - 1 - u, b.dstY + v)
    ensures BlitColor(was, b.(flipX := true), sprite, colors, b.dstX + b.width - 1 - u, b.dstY + v)
         == BlitColor(was, b, sprite, colors, b.dstX + u, b.dstY + v)
  {
    hide Sample, Nibble, Ink;
    assert b.(flipX := true).BitIndex(b.width - 1 - u, v) == b.BitIndex(u, v);
  }

  /** `flipY` mirrors it top to bottom. */
  lemma FlipYMirrors(was: Color, b: Blit, sprite: seq<bv8>, colors: seq<bv8>, u: int, v: int)
    requires |colors| == 2 && !b.rotate && !b.flipY && b.InSprite(u, v)
    requires b.Fits(sprite) && b.(flipY := true).Fits(sprite)
    requires OnScreen(b.dstX + u, b.dstY + v) && OnScreen(b.dstX + u, b.dstY + b.height - 1 - v)
    ensures BlitColor(was, b.(flipY := true), sprite, colors, b.dstX + u, b.dstY + b.height - 1 - v)
         == BlitColor(was, b, sprite, colors, b.dstX + u, b.dstY + v)
  {
    hide Sample, Nibble, Ink;
    assert b.(flipY := true).BitIndex(u, b.height - 1 - v) == b.BitIndex(u, v);
  }
}
