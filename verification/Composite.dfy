/// The compositor: it reads the packed framebuffer back, maps it through the
/// palette and streams it to the panel in blocks of eight rows from two
/// buffers used in turn.
module Composite {
  import opened Framebuffer

  const BLIT_ROWS := 8
  const LEFT := 68
  const TOP := 40

  /** RGB888 to RGB565: the top five, six and five bits of the three channels. */
  function To565(c: bv32): bv16 {
    var r, g, b := ((c >> 16) & 0xff) as bv16, ((c >> 8) & 0xff) as bv16, (c & 0xff) as bv16;
    ((r >> 3) << 11) | ((g >> 2) << 5) | (b >> 3)
  }

  /** A word of four bytes, the palette's 0xAARRGGBB; every word is one. */
  function Argb(a: bv8, r: bv8, g: bv8, b: bv8): bv32 {
    ((a as bv32) << 24) | ((r as bv32) << 16) | ((g as bv32) << 8) | (b as bv32)
  }

  lemma BytesOfWord(c: bv32) returns (a: bv8, r: bv8, g: bv8, b: bv8)
    ensures c == Argb(a, r, g, b)
  {
    a, r, g, b := ((c >> 24) & 0xff) as bv8, ((c >> 16) & 0xff) as bv8, ((c >> 8) & 0xff) as bv8, (c & 0xff) as bv8;
  }

  /** As a number: the channels divided down to five, six and five bits, red highest. */
  lemma To565AsNumber(a: bv8, r: bv8, g: bv8, b: bv8)
    ensures To565(Argb(a, r, g, b)) as int == 2048 * (r as int / 8) + 32 * (g as int / 4) + b as int / 8
  {
    ShortenedChannels(a, r, g, b);
    FieldsAdd(r >> 3, g >> 2, b >> 3);
    Eighth(r);
    Eighth(b);
    Fourth(g);
  }

  lemma ShortenedChannels(a: bv8, r: bv8, g: bv8, b: bv8)
    ensures To565(Argb(a, r, g, b)) == (((r >> 3) as bv16) << 11) | (((g >> 2) as bv16) << 5) | ((b >> 3) as bv16)
    ensures r >> 3 < 32 && g >> 2 < 64 && b >> 3 < 32
  {
  }

  lemma FieldsAdd(r: bv8, g: bv8, b: bv8)
    requires r < 32 && g < 64 && b < 32
    ensures (((r as bv16) << 11) | ((g as bv16) << 5) | (b as bv16)) as int
         == 2048 * (r as int) + 32 * (g as int) + b as int
  {
  }

  lemma Eighth(b: bv8)
    ensures (b >> 3) as int == b as int / 8
  {
  }

  lemma Fourth(b: bv8)
    ensures (b >> 2) as int == b as int / 4
  {
  }

  type Image = (int, int) -> bv16

  /** A transfer the panel has accepted: the block is read at any time before the next one starts. */
  datatype Transfer = None | Transfer(x: int, y: int, w: nat, h: nat, block: array<bv16>)

  lemma IndexInBlock(row: int, col: int, w: nat, h: nat)
    requires 0 <= row < h && 0 <= col < w
    ensures 0 <= row * w + col < w * h
  {
    assert row * w + w == (row + 1) * w;
    assert (row + 1) * w <= h * w;
  }

  lemma PixelIndex(row: nat, x: nat)
    requires x < 160
    ensures (row * 160 + x) / 160 == row && (row * 160 + x) % 160 == x && (row * 160 + x) % 4 == x % 4
  {
    assert row * 160 + x == 4 * (40 * row) + x;
  }

  /** The k-th pixel of the rows from y on, through the palette. */
  ghost function PixelOf(palette: seq<bv32>, view: Picture, y: int, k: nat): bv16
    requires |palette| == 4
  {
    To565(palette[view(k % WIDTH, y + k / WIDTH)])
  }

  /** A block of rows from y on, through the palette. */
  ghost predicate HoldsRows(img: seq<bv16>, palette: seq<bv32>, view: Picture, y: int)
    requires |palette| == 4
  {
    && |img| == WIDTH * BLIT_ROWS
    && forall k | 0 <= k < |img| :: img[k] == PixelOf(palette, view, y, k)
  }

  lemma BlockPixel(img: seq<bv16>, palette: seq<bv32>, view: Picture, y: int, row: nat, x: nat)
    requires |palette| == 4 && HoldsRows(img, palette, view, y) && row < BLIT_ROWS && x < WIDTH
    ensures row * WIDTH + x < |img| && img[row * WIDTH + x] == To565(palette[view(x, y + row)])
  {
    hide To565;
    PixelIndex(row, x);
  }

  /** The panel with a transfer in flight.  `shown` is what it shows without that transfer. */
  class Panel {
    /** Whether the panel has been set up; without it nothing is ever sent. */
    const ready: bool
    ghost var shown: Image
    ghost var pending: Transfer

    ghost predicate Valid()
      reads this
    {
      pending.None? || (ready && pending.w * pending.h <= pending.block.Length)
    }

    /** What the panel shows once the transfer in flight has read its block as it is now. */
    ghost function Settled(): Image
      requires Valid()
      reads this, if pending.None? then {} else {pending.block}
    {
      if pending.None? then shown
      else
        var Transfer(x, y, w, h, block) := pending;
        var was, img := shown, block[..];
        (qx: int, qy: int) =>
          if x <= qx < x + w && y <= qy < y + h
          then IndexInBlock(qy - y, qx - x, w, h); img[(qy - y) * w + (qx - x)]
          else was(qx, qy)
    }

    /** A pixel of the transfer in flight comes from its block, any other is as before. */
    lemma SettledAt(qx: int, qy: int)
      requires Valid() && pending.Transfer?
      ensures if pending.x <= qx < pending.x + pending.w && pending.y <= qy < pending.y + pending.h
              then var k := (qy - pending.y) * pending.w + (qx - pending.x);
                   0 <= k < pending.block.Length && Settled()(qx, qy) == pending.block[k]
              else Settled()(qx, qy) == shown(qx, qy)
    {
      if pending.x <= qx < pending.x + pending.w && pending.y <= qy < pending.y + pending.h {
        IndexInBlock(qy - pending.y, qx - pending.x, pending.w, pending.h);
      }
    }

    lemma NothingPending()
      requires pending.None?
      ensures Valid() && Settled() == shown
    {
    }

    /** Starting a transfer waits for the one before, which has read its block by now. */
    ghost method DrawImg(x: int, y: int, w: nat, h: nat, block: array<bv16>)
      requires Valid() && w * h <= block.Length
      modifies this
      ensures Valid()
      ensures if ready then shown == old(Settled()) && pending == Transfer(x, y, w, h, block)
              else shown == old(shown) && pending == None
    {
      if ready {
        shown := Settled();
        pending := Transfer(x, y, w, h, block);
      }
    }
  }

  class Display {
    const even: array<bv16>
    const odd: array<bv16>
    const panel: Panel

    /** Between frames the block in flight, if it is one of the two, is the odd one. */
    ghost predicate Valid()
      reads this, panel
    {
      && panel.Valid()
      && even.Length == WIDTH * BLIT_ROWS && odd.Length == WIDTH * BLIT_ROWS && even != odd
      && (panel.pending.Transfer? ==> panel.pending.block != even)
    }

    constructor (p: Panel)
      requires p.Valid()
      ensures Valid() && panel == p
      ensures fresh(even) && fresh(odd)
    {
      even := new bv16[WIDTH * BLIT_ROWS];
      odd := new bv16[WIDTH * BLIT_ROWS];
      panel := p;
    }

    /** The two inner loops: rows y to y + 7 of the picture into a block. */
    method FillBlock(palette: seq<bv32>, canvas: Canvas, y: int, block: array<bv16>)
      requires canvas.Valid() && |palette| == 4 && 0 <= y <= HEIGHT - BLIT_ROWS
      requires block.Length == WIDTH * BLIT_ROWS
      modifies block
      ensures HoldsRows(block[..], palette, canvas.view, y)
    {
      hide PixelOf, Crumb;
      var row := 0;
      while row < BLIT_ROWS
        invariant 0 <= row <= BLIT_ROWS
        invariant forall k | 0 <= k < row * WIDTH ::
                    block[k] == PixelOf(palette, canvas.view, y, k)
      {
        FillRow(palette, canvas, y, row, block);
        row := row + 1;
      }
    }

    method FillRow(palette: seq<bv32>, canvas: Canvas, y: int, row: int, block: array<bv16>)
      requires canvas.Valid() && |palette| == 4 && 0 <= y <= HEIGHT - BLIT_ROWS && 0 <= row < BLIT_ROWS
      requires block.Length == WIDTH * BLIT_ROWS
      modifies block
      ensures forall k | 0 <= k < row * WIDTH :: block[k] == old(block[k])
      ensures forall k | row * WIDTH <= k < (row + 1) * WIDTH ::
                block[k] == PixelOf(palette, canvas.view, y, k)
    {
      hide To565, Crumb, PixelOf;
      var base := (y + row) * WIDTH;
      var x := 0;
      while x < WIDTH
        invariant 0 <= x <= WIDTH
        invariant forall k | 0 <= k < row * WIDTH :: block[k] == old(block[k])
        invariant forall k | row * WIDTH <= k < row * WIDTH + x :: block[k] == PixelOf(palette, canvas.view, y, k)
      {
        var i := base + x;
        var sel := Crumb(canvas.data[i / 4], i % 4);
        SelectsPixel(palette, canvas, y, row, x);
        block[row * WIDTH + x] := To565(palette[sel]);
        x := x + 1;
      }
    }

    lemma SelectsPixel(palette: seq<bv32>, canvas: Canvas, y: int, row: nat, x: nat)
      requires canvas.Valid() && |palette| == 4 && 0 <= y && y + row < HEIGHT && x < WIDTH
      ensures var i := (y + row) * WIDTH + x;
              To565(palette[Crumb(canvas.data[i / 4], i % 4)]) == PixelOf(palette, canvas.view, y, row * WIDTH + x)
    {
      hide To565, Crumb;
      PixelIndex(y + row, x);
      PixelIndex(row, x);
    }

    /** The first rows of the picture are shown in front of what was there before. */
    ghost predicate Shows(now: Image, was: Image, palette: seq<bv32>, view: Picture, rows: int)
      requires |palette| == 4
    {
      forall qx, qy ::
        now(qx, qy) == if panel.ready && 68 <= qx < 68 + WIDTH && 40 <= qy < 40 + rows
                       then To565(palette[view(qx - 68, qy - 40)]) else was(qx, qy)
    }

    lemma OtherBlock(y: nat)
      requires y % BLIT_ROWS == 0
      ensures (y + BLIT_ROWS) % BLIT_ROWS == 0 && (y + BLIT_ROWS) / BLIT_ROWS % 2 != y / BLIT_ROWS % 2
    {
    }

    lemma ShowsNothing(was: Image, palette: seq<bv32>, view: Picture)
      requires |palette| == 4
      ensures Shows(was, was, palette, view, 0)
    {
    }

    lemma ShowsMore(now: Image, mid: Image, was: Image, palette: seq<bv32>, view: Picture, y: int, rows: nat)
      requires |palette| == 4 && Shows(mid, was, palette, view, y) && 0 <= y
      requires forall qx, qy ::
                 now(qx, qy) == (if panel.ready && LEFT <= qx < LEFT + WIDTH && TOP + y <= qy < TOP + y + rows
                                 then To565(palette[view(qx - LEFT, qy - TOP)]) else mid(qx, qy))
      ensures Shows(now, was, palette, view, y + rows)
    {
      hide To565;
    }

    lemma ShowsAll(now: Image, was: Image, palette: seq<bv32>, view: Picture)
      requires |palette| == 4 && Shows(now, was, palette, view, HEIGHT)
      ensures forall qx, qy ::
                now(qx, qy) == if panel.ready && 68 <= qx < 68 + WIDTH && 40 <= qy < 40 + HEIGHT
                               then To565(palette[view(qx - 68, qy - 40)]) else was(qx, qy)
    {
    }

    /** The picture appears 68 pixels from the left and 40 from the top of the panel, and nothing else
        changes there. */
    method WindowComposite(palette: seq<bv32>, canvas: Canvas)
      requires Valid() && canvas.Valid() && |palette| == 4
      modifies even, odd, panel
      ensures Valid()
      ensures forall qx, qy ::
                panel.Settled()(qx, qy)
                == if panel.ready && 68 <= qx < 68 + WIDTH && 40 <= qy < 40 + HEIGHT
                   then To565(palette[canvas.view(qx - 68, qy - 40)]) else old(panel.Settled())(qx, qy)
    {
      hide To565, Panel.Settled, Panel.Valid, Canvas.Valid, Shows;
      ghost var was := panel.Settled();
      ShowsNothing(was, palette, canvas.view);
      var y := 0;
      while y < HEIGHT
        invariant 0 <= y <= HEIGHT && y % BLIT_ROWS == 0 && panel.Valid()
        invariant panel.pending.Transfer? ==> panel.pending.block != (if y / BLIT_ROWS % 2 == 0 then even else odd)
        invariant Shows(panel.Settled(), was, palette, canvas.view, y)
      {
        var block := if y / BLIT_ROWS % 2 == 0 then even else odd;
        var rows := HEIGHT - y;
        if rows > BLIT_ROWS {
          rows := BLIT_ROWS;
        }
        assert rows == BLIT_ROWS;
        ghost var mid := panel.Settled();
        StreamRows(palette, canvas, y, rows, block);
        ShowsMore(panel.Settled(), mid, was, palette, canvas.view, y, rows);
        OtherBlock(y);
        y := y + BLIT_ROWS;
      }
      ShowsAll(panel.Settled(), was, palette, canvas.view);
    }

    /** Fill a block that is not in flight and hand it to the panel. */
    method StreamRows(palette: seq<bv32>, canvas: Canvas, y: int, rows: nat, block: array<bv16>)
      requires panel.Valid() && canvas.Valid() && |palette| == 4
      requires 0 <= y <= HEIGHT - BLIT_ROWS && rows == BLIT_ROWS && block.Length == WIDTH * BLIT_ROWS
      requires panel.pending.Transfer? ==> panel.pending.block != block
      modifies block, panel
      ensures panel.Valid()
      ensures panel.pending == if panel.ready then Transfer(LEFT, TOP + y, WIDTH, rows, block) else None
      ensures forall qx, qy ::
                panel.Settled()(qx, qy)
                == (if panel.ready && LEFT <= qx < LEFT + WIDTH && TOP + y <= qy < TOP + y + rows
                    then To565(palette[canvas.view(qx - LEFT, qy - TOP)]) else old(panel.Settled())(qx, qy))
    {
      hide To565, Crumb, HoldsRows, Panel.Settled;
      ghost var was := panel.Settled();
      FillBlock(palette, canvas, y, block);
      assert panel.Settled() == was;
      if !panel.ready {
        panel.NothingPending();
      }
      panel.DrawImg(LEFT, TOP + y, WIDTH, rows, block);
      if !panel.ready {
        panel.NothingPending();
      }
      forall qx, qy
        ensures panel.Settled()(qx, qy)
             == (if panel.ready && LEFT <= qx < LEFT + WIDTH && TOP + y <= qy < TOP + y + rows
                 then To565(palette[canvas.view(qx - LEFT, qy - TOP)]) else was(qx, qy))
      {
        if panel.ready {
          ShowsRows(palette, canvas.view, y, block, qx, qy);
        }
      }
    }

    /** A block of rows in flight is what the panel shows of them. */
    lemma ShowsRows(palette: seq<bv32>, view: Picture, y: int, block: array<bv16>, qx: int, qy: int)
      requires panel.Valid() && |palette| == 4 && 0 <= y <= HEIGHT - BLIT_ROWS
      requires panel.pending == Transfer(LEFT, TOP + y, WIDTH, BLIT_ROWS, block)
      requires HoldsRows(block[..], palette, view, y)
      ensures panel.Settled()(qx, qy)
           == (if LEFT <= qx < LEFT + WIDTH && TOP + y <= qy < TOP + y + BLIT_ROWS
               then To565(palette[view(qx - LEFT, qy - TOP)]) else panel.shown(qx, qy))
    {
      hide To565, HoldsRows, Panel.Settled;
      panel.SettledAt(qx, qy);
      if LEFT <= qx < LEFT + WIDTH && TOP + y <= qy < TOP + y + BLIT_ROWS {
        BlockPixel(block[..], palette, view, y, qy - (TOP + y), qx - LEFT);
      }
    }
  }
}
