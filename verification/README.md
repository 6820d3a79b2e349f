# A WASM-4 console on WAMR: verified model

The firmware runs WASM-4 games on a small board: a software rasteriser draws
into a packed framebuffer that a compositor streams to the panel, two buttons
steer the game, and the WAMR runtime loads and runs ahead-of-time compiled
WebAssembly. This project models the parts of it that take an argument to get
right, and proves them with Dafny (`dafny verify dfyconfig.toml`).

* **Rasteriser** (`Framebuffer`, `Shapes`, `BresenhamLine`, `MidpointOval`,
  `OvalGeometry`, `SpriteBlit`, `TextLayout`, `Composite`). The canvas is a
  class over the packed byte array, changed in place. A ghost picture is tied to
  the array by the indexing of the compositor, so every routine is specified by
  what a reader of the array sees. Lines and ovals are proved against closed
  forms (the rounded line, the equation of the ellipse), and the closed forms
  against geometry.
* **AOT runtime** (`ValueProfile`, `ProfileRuns`, `ProfileImage`, `ProfileFile`,
  `ProfileDump`, `HeapInsertion`, `InstanceLayout`, `NameSection`, `SymbolTable`, `AotFile`,
  `Intrinsics`). The value lists are real linked nodes. The dump, the instance
  block and the name table are written into buffers by moving pointers and
  read back by independent readers.
* **Custom sections** (`CustomSection`): LEB128 (section 5.2.2 of the
  WebAssembly Core Specification), vectors, the padding search and the section
  it builds (section 5.5.3), with a parser as the inverse.
* **Blocking operations** (`BlockingOp`): the two-flag handshake as interleaved
  atomic steps of a worker, any number of interrupters and the rest of the
  runtime.
* **Steering** (`Steering`): debouncers, the shadow heading, and the game it has
  to stay in step with.

`Arithmetic`, `ByteBits`, `Bytes`, `Buffers` and `Wrappers` are shared helpers.

## What the code does not promise

Where a natural property is false of the code, the model keeps the code and
states when the property holds:

* A rectangle with one positive and one non-positive size still gets edges,
  outside itself (`StrokeStaysInsideIff`).
* An oval strokes with colour 3 when its stroke draw colour is 0; only 0xf draws
  nothing, unlike in the rectangle (`Ink`, `DrawOval`).
* `leb128_encode_uint(0)` is empty and is not undone by the decoder
  (`UnlebUndoesLeb`); vectors repair it.
* The padding search succeeds on every input for the powers of two up to 128 and
  for no larger one (`SearchSucceedsIff`).
* The counts of a value profile are exact if and only if at most 255 values were
  seen, with a node for each, and none 2^64 times (`ExactIff`); the list may hold
  255 nodes, but the dump asserts fewer (`ShortIff`); and after 255 times the
  largest count the eviction may use a null pointer (`NotStuckBefore`,
  `StuckAfterUnits`).
* With counters of another size than the records say, the dump is not bounded by
  the length of its buffer: it runs over the end if and only if the buffer ends
  before the last byte stored (`DumpPgoProfDataToBuf`, `DumpOverruns`).
* An app heap is inside the memory and in front of the new __heap_base if and only
  if a kilobyte is left for it (`InsertionIsSafeIff`); behind the memory it may be
  up to a kilobyte smaller than asked for (`BehindIsSafeIff`).
* A name section that fails to load is tolerated.  Names it leaves are never wrong
  (`LookupIsNeverWrong`), and all found if and only if the search for the last one
  stays among the stored indexes (`NamesFoundIff`).
* A UTF-16 text shows a character more than its length covers if and only if the
  length is odd and positive and the text goes on (`Utf16CoveredIff`).
* The element types of table instances are looked up behind the module's own
  tables if and only if there are imported ones (`PutTables`), and a segment that
  does not fit its table is accepted exactly if its end passes 2^32
  (`CheckIsWrongIff`).

## Model

| member | source | states |
|---|---|---|
| Framebuffer.Canvas.DrawPoint | components/game_app/framebuffer.c:246-251 | One pixel of the picture a reader of the packed array sees changes, every other pixel of the plane stays |
| Framebuffer.Canvas.DrawPointUnclipped | components/game_app/framebuffer.c:253-257 | The same for any coordinates, doing nothing off the screen |
| Framebuffer.Canvas.DrawHLine | components/game_app/framebuffer.c:259-279 | Head loop, block fill and tail loop set exactly startX <= x < endX of row y, as seen by a reader of the array; nothing when startX >= endX |
| Framebuffer.Canvas.Memset | components/game_app/framebuffer.c:268-272 | Filling whole bytes paints exactly the pixels that live in them, all on one row |
| Framebuffer.Canvas.DrawHLineUnclipped | components/game_app/framebuffer.c:281-293 | A span with any ends, clipped to the screen, paints exactly its visible part |
| Framebuffer.Canvas.Clear | components/game_app/framebuffer.c:300-302 | Every pixel of the screen becomes colour 0 |
| Framebuffer.WriteThenRead | components/game_app/framebuffer.c:246-251 | Writing one of the four pixels of a byte and reading any of them: the written one is new, the other three survive |
| Framebuffer.FillReads | components/game_app/framebuffer.c:268-272 | A fill byte reads as its colour at all four pixels |
| Framebuffer.InBytesIffByteFilled | components/game_app/display.c:69-75 | The reader's indexing finds a pixel in a filled byte exactly when the pixel belongs to the filled span |
| Framebuffer.SameByte | components/game_app/display.c:69-75 | Pixels that share a byte share a row and a group of four columns, because a row is a whole number of bytes |
| Framebuffer.ViewIsDigit | components/game_app/display.c:69-75 | The pixel a reader sees at (x, y) is digit x % 4, lowest first, of byte 40 y + x / 4 in base four |
| Framebuffer.InkAsNumber | components/game_app/framebuffer.c:402-403 | Draw colours 1, 2, 3 and 4 stand for the palette indexes 0, 1, 2 and 3 |
| Framebuffer.DrawColorsAsNumbers | components/game_app/framebuffer.c:393-403 | Fill and stroke are the low and the high hexadecimal digit of the first colour byte |
| Shapes.HLine | components/game_app/framebuffer.c:304-312 | Paints exactly the run of len pixels in the first draw colour, nothing for colour 0 |
| Shapes.VLine | components/game_app/framebuffer.c:314-330 | The same downwards, for any position and length |
| Shapes.Rect | components/game_app/framebuffer.c:332-378 | For any position and size each screen pixel is stroke on the unclipped border, else fill in the rectangle, else as before; a colour of 0 turns stroke or fill off |
| Shapes.FillRows | components/game_app/framebuffer.c:344-349 | The fill loop paints exactly the visible pixels of the rectangle |
| Shapes.StrokeSides | components/game_app/framebuffer.c:351-366 | The left and right edges, unclipped border, clipped drawing |
| Shapes.StrokeEnds | components/game_app/framebuffer.c:368-376 | The top and bottom edges likewise |
| Shapes.BorderIsTheEdge | components/game_app/framebuffer.c:354-376 | For positive sizes the border is exactly the set of pixels with a neighbour outside the rectangle |
| Shapes.StrokeStaysInsideIff | components/game_app/framebuffer.c:354-376 | The stroke stays inside the rectangle if and only if both sizes are positive or neither is: a rectangle of width 0 and positive height still gets edges |
| BresenhamLine.Line | components/game_app/framebuffer.c:472-508 | For all endpoints the loop paints exactly the pixels of the segment, stated in closed form: the longer axis by k, the other by the rounded proportion |
| BresenhamLine.Walk | components/game_app/framebuffer.c:489-507 | The error-term loop terminates at the second endpoint and paints each pixel of the closed form |
| BresenhamLine.NextStep | components/game_app/framebuffer.c:498-506 | One iteration moves the longer axis by exactly one and keeps the error term within one length of that axis |
| BresenhamLine.ErrorPinsMinor | components/game_app/framebuffer.c:493-506 | The bounds on the error term determine the shorter coordinate as the rounded proportion |
| BresenhamLine.StopsExactlyAtTheEnd | components/game_app/framebuffer.c:493-497 | The walk stands on the second endpoint after exactly max(dx, dy) steps and never before |
| BresenhamLine.SwapPaintsTheSame | components/game_app/framebuffer.c:479-487 | Swapping the endpoints paints the same set of pixels |
| BresenhamLine.PixelsAreNumbered | components/game_app/framebuffer.c:489-507 | The max(dx, dy) + 1 pixels are pairwise different: each determines its number |
| BresenhamLine.CoveredIsNumbered | components/game_app/framebuffer.c:489-507 | A pixel is painted exactly when it is one of these |
| BresenhamLine.WithinHalfAPixel | components/game_app/framebuffer.c:489-507 | A column is the painted one if and only if it is within half a pixel of the ideal line, halves going down |
| BresenhamLine.WalkIsConnected | components/game_app/framebuffer.c:498-506 | Each step moves each axis by at most one, never back, and one of them by one |
| BresenhamLine.StaysBetweenEndpoints | components/game_app/framebuffer.c:489-507 | No overshoot on either axis; the first and last pixels are the endpoints |
| BresenhamLine.LineIsIdeal | components/game_app/framebuffer.c:472-508 | In the four arguments of the call: a pixel is painted if and only if it lies between the endpoints on the longer axis and is the rounded point of the line through them there |
| BresenhamLine.LineSpansItsEndpoints | components/game_app/framebuffer.c:472-508 | Both endpoints of the call are painted, and nothing outside the rectangle they span |
| BresenhamLine.LineStaysNear | components/game_app/framebuffer.c:472-508 | A painted pixel is within half a pixel of the line through the two endpoints: twice its cross product with the line is at most the length of the longer axis |
| BresenhamLine.OnePixelOfEach | components/game_app/framebuffer.c:472-508 | Exactly one pixel is painted for each coordinate of the longer axis |
| MidpointOval.DrawOval | components/game_app/framebuffer.c:393-470 | For every position, width and height the drawing is that of a scan whose every decision is an inequality of the ellipse equation; draw colour 0xf of the stroke draws nothing |
| MidpointOval.DrawOutline | components/game_app/framebuffer.c:428-459 | The first loop, on its incrementally updated error term, makes the passes of that scan and terminates for every width and height |
| MidpointOval.DrawTips | components/game_app/framebuffer.c:461-469 | The second loop draws the remaining tips, for any height |
| MidpointOval.DrawScan | components/game_app/framebuffer.c:429-440 | One pass marks its four corners and, when filling, the two rows between them |
| MidpointOval.FirstError | components/game_app/framebuffer.c:415-423 | The initial error term is the ellipse at the diagonal neighbour of the start |
| MidpointOval.Increments | components/game_app/framebuffer.c:419-426 | The running increments are the differences of the ellipse equation between neighbouring columns and rows |
| MidpointOval.Moves | components/game_app/framebuffer.c:442-458 | After every combination of moves the error term is again the ellipse at the new diagonal neighbour |
| MidpointOval.Decisions | components/game_app/framebuffer.c:442-458 | The loop's comparisons with the error term are the scan's inequalities |
| MidpointOval.UpOnlyBelowTheTop | components/game_app/framebuffer.c:442-458 | A move away from the centre line happens only below the top (except for one-pixel-wide ovals): the second half of the termination measure |
| MidpointOval.SomeMove | components/game_app/framebuffer.c:442-458 | Every pass moves a column in or a row out |
| MidpointOval.MarksInTurn | components/game_app/framebuffer.c:428-469 | Drawing two lists of scans in turn: the later mark wins |
| OvalGeometry.MirrorSymmetric | components/game_app/framebuffer.c:428-469 | Strokes and fills, unclipped, are mirror-symmetric in both axes, for any scans |
| OvalGeometry.DrawingStaysInBox | components/game_app/framebuffer.c:393-470 | For positive sizes nothing is drawn outside the box |
| OvalGeometry.EveryRowIsStroked | components/game_app/framebuffer.c:393-470 | Every row from y to y + height - 1 receives a stroke, for every positive width and height |
| OvalGeometry.SidesAreStroked | components/game_app/framebuffer.c:393-470 | The outermost columns are stroked on the middle row |
| OvalGeometry.FilledOvalIsSolid | components/game_app/framebuffer.c:393-470 | With a pixel a filled oval holds every pixel no further from the centre on either axis: no holes |
| OvalGeometry.DrawingHugsTheEllipse | components/game_app/framebuffer.c:428-459 | Every corner stroked by the first loop is separated from its neighbours by the true ellipse, except in the middle columns |
| OvalGeometry.OutlineHugsTheEllipse | components/game_app/framebuffer.c:442-458 | That is kept by every pass of the loop |
| OvalGeometry.ScansStayInBox | components/game_app/framebuffer.c:442-458 | Every pass keeps its corners inside the box |
| OvalGeometry.RowIsScanned | components/game_app/framebuffer.c:428-469 | Every row up to the top is passed, and no later pass is further out on it |
| OvalGeometry.FillingKeepsTheOutline | components/game_app/framebuffer.c:428-469 | Filling leaves the outline exactly as it is without, and an oval that is not filled has no fill |
| OvalGeometry.FillIsEnclosed | components/game_app/framebuffer.c:428-469 | The fill is exactly what the outline encloses: the pixels that are not outline and have outline on both sides of their row |
| OvalGeometry.EllipseIsTheCurve | components/game_app/framebuffer.c:415-423 | The equation of the scan is negative exactly inside the curve (x/a)^2 + (y/b)^2 = 1 and zero exactly on it, over the reals |
| SpriteBlit.DrawBlit | components/game_app/framebuffer.c:556-608 | For every position, size, flip, rotation and depth with an adequate sprite each screen pixel is the sprite pixel seen there in its draw colour, or as before if there is none or it is transparent |
| SpriteBlit.DrawSpritePixel | components/game_app/framebuffer.c:579-605 | One pass of the inner loop draws exactly its own target, which is on the screen |
| SpriteBlit.LookupIsNibble | components/game_app/framebuffer.c:559-603 | The shift of the two colour bytes selects the index-th draw colour |
| SpriteBlit.NaiveBlitIsTheSame | components/game_app/framebuffer.c:561-578 | The clipped loops leave the same picture as a blit that visits every sprite pixel and drops those off the screen |
| SpriteBlit.RotateTurnsLeft | components/game_app/framebuffer.c:561-592 | Rotation turns the sprite a quarter to the left |
| SpriteBlit.FlipXMirrors | components/game_app/framebuffer.c:561-592 | flipX mirrors left to right |
| SpriteBlit.FlipYMirrors | components/game_app/framebuffer.c:561-592 | flipY mirrors top to bottom |
| SpriteBlit.SamplesSpellTheSprite | components/game_app/framebuffer.c:589-600 | The pixels of a sprite, first one most significant, spell the number its bytes are, and those of one byte the byte |
| SpriteBlit.SampleIsDigit | components/game_app/framebuffer.c:589-600 | The n-th pixel is digit number n from the front, in base two or four, of the sprite read as one big-endian number |
| SpriteBlit.NibbleIsDigit | components/game_app/framebuffer.c:559-603 | A colour index selects its hexadecimal digit of the two colour bytes read as one little-endian number |
| SpriteBlit.UprightShowsDigits | components/game_app/framebuffer.c:561-605 | The upright, unflipped blit shows at (dstX + u, dstY + v) the draw colour that digit (srcY + v) * srcStride + srcX + u of the sprite selects, in numbers and without the shifts |
| SpriteBlit.BlitStaysInRectangle | components/game_app/framebuffer.c:561-605 | Outside its rectangle a blit changes nothing; a rotated one exchanges the sides of it |
| TextLayout.DrawText | components/game_app/framebuffer.c:510-524 | The screen shows the characters up to the first zero, one glyph over the other, at cursors that move right and down |
| TextLayout.DrawTextUtf8 | components/game_app/framebuffer.c:526-539 | The same for at most byteLength characters |
| TextLayout.DrawTextUtf16 | components/game_app/framebuffer.c:541-554 | The same for half as many, rounded up |
| TextLayout.Utf16CoveredIff | components/game_app/framebuffer.c:541-554 | The length covers all characters drawn if and only if it is even, not positive, or the text ends before |
| TextLayout.CellsAreApart | components/game_app/framebuffer.c:510-554 | The cells of two different cursor positions never overlap |
| TextLayout.CellShowsItsCharacter | components/game_app/framebuffer.c:510-554 | So in its cell every character is seen alone, whatever the rest of the text |
| TextLayout.GlyphFits | components/game_app/framebuffer.c:510-554 | Every printable character has its eight rows inside the font |
| TextLayout.CellOf | components/game_app/framebuffer.c:510-554 | Character k stands eight pixels to the right for every character since the start of its line and eight down for every newline before it |
| TextLayout.GlyphIsItsRows | components/game_app/framebuffer.c:510-554 | Pixel (u, v) of a character is bit 7 - u of byte 8 (c - 32) + v of the font, ones in the second draw colour and zeros in the first |
| Composite.Display.WindowComposite | components/game_app/display.c:61-81 | After a frame the panel shows, at (68 + x, 40 + y), the palette colour of pixel (x, y) of the framebuffer in RGB565 and is unchanged elsewhere, even if a transfer reads its block as late as the start of the next one; without a panel nothing changes |
| Composite.Display.StreamRows | components/game_app/display.c:63-80 | Filling a block that is not in flight and handing it over shows eight more rows |
| Composite.Display.FillBlock | components/game_app/display.c:69-77 | The block holds the eight rows of the picture through the palette |
| Composite.Panel.DrawImg | components/BSP/LCD/lcd.c:125-131 | A transfer is started once the one before has read its block; without a panel nothing is sent |
| Composite.To565AsNumber | components/game_app/display.c:48-53 | As a number, RGB565 is red / 8, green / 4 and blue / 8 at the weights 2048, 32 and 1 |
| CustomSection.LebEncode | components/wamr/test-tools/append-aot-to-wasm/append_aot_to_wasm.py:18-34 | The loop yields the unsigned LEB128 digits, and none for 0 |
| CustomSection.LebDecode | components/wamr/test-tools/append-aot-to-wasm/append_aot_to_wasm.py:37-54 | The loop reads digits up to the first below 128 or the end of the input; an empty input raises |
| CustomSection.UnlebUndoesLeb | components/wamr/test-tools/append-aot-to-wasm/append_aot_to_wasm.py:18-54 | Decoding undoes encoding, whatever follows, if and only if the value is positive |
| CustomSection.LebIsShortest | components/wamr/test-tools/append-aot-to-wasm/append_aot_to_wasm.py:18-54 | No byte string that decodes to a value is shorter than its encoding |
| CustomSection.ReadVectorUndoesVector | components/wamr/test-tools/append-aot-to-wasm/append_aot_to_wasm.py:65-68 | Vectors, including the empty one, are read back exactly |
| CustomSection.CalcPadding | components/wamr/test-tools/append-aot-to-wasm/append_aot_to_wasm.py:71-81 | Returns the vector of the first padding among twice the alignment that aligns the content, tested with the mask of the source, and fails if and only if there is none |
| CustomSection.LebLenWindow | components/wamr/test-tools/append-aot-to-wasm/append_aot_to_wasm.py:71-81 | The length field gains at most one digit in a window of 257 values |
| CustomSection.DigitsOf | components/wamr/test-tools/append-aot-to-wasm/append_aot_to_wasm.py:18-34 | The values with n digits are those from 128^(n-1) up to 128^n |
| CustomSection.AlignedIsDivisible | components/wamr/test-tools/append-aot-to-wasm/append_aot_to_wasm.py:57-58 | For a power of two the mask test is divisibility |
| CustomSection.SearchSucceedsIff | components/wamr/test-tools/append-aot-to-wasm/append_aot_to_wasm.py:71-81 | For a power of two the search succeeds on every start, name length and content length if and only if the alignment is at most 128 |
| CustomSection.PaddingIsFound | components/wamr/test-tools/append-aot-to-wasm/append_aot_to_wasm.py:71-81 | The half for 1 to 128: one half of the tries reaches consecutive positions |
| CustomSection.NoPaddingIsFound | components/wamr/test-tools/append-aot-to-wasm/append_aot_to_wasm.py:71-81 | The half from 256 on: for every such power of two an input on which all tries fail |
| CustomSection.CreateCustomSectionAligned | components/wamr/test-tools/append-aot-to-wasm/append_aot_to_wasm.py:88-125 | Succeeds exactly if the search does, with no assertion failing; the result is a section with the first padding that aligns its content |
| CustomSection.ParseUndoesSection | components/wamr/test-tools/append-aot-to-wasm/append_aot_to_wasm.py:101-120 | Parsing the section gives back name, padding and content, whatever follows it |
| CustomSection.LebDigit | components/wamr/test-tools/append-aot-to-wasm/append_aot_to_wasm.py:18-34 | Digit k is that of 128^k, with the top bit set on all but the last |
| BlockingOp.StepKeepsInv | components/wamr/core/iwasm/common/wasm_blocking_op.c:25-78 | Every atomic step of the worker, of any interrupter and of the rest of the runtime keeps the invariant, never clears TERMINATE and lets no begin succeed once it is set |
| BlockingOp.RunKeepsInv | components/wamr/core/iwasm/common/wasm_blocking_op.c:25-78 | The invariant holds in every state of every interleaving |
| BlockingOp.AssertionsHold | components/wamr/core/iwasm/common/wasm_blocking_op.c:25-51 | Neither bh_assert can fail in any interleaving |
| BlockingOp.NoBeginSucceeds | components/wamr/core/iwasm/common/wasm_blocking_op.c:25-39 | Once TERMINATE is set the worker is inside only if it has been there ever since |
| BlockingOp.ReturnedMeansNeverInside | components/wamr/core/iwasm/common/wasm_blocking_op.c:53-78 | When an interrupter has left its loop the worker is not, and never again becomes, inside a blocking operation |
| BlockingOp.InterruptersKeepWaking | components/wamr/core/iwasm/common/wasm_blocking_op.c:53-78 | While the worker is inside, every interrupter that has started is still looping |
| BlockingOp.HandshakeKeepsOthers | components/wamr/core/iwasm/common/wasm_blocking_op.c:25-78 | The steps of the handshake change no flag but TERMINATE and BLOCKING |
| BlockingOp.ExecEnv.BeginBlockingOp | components/wamr/core/iwasm/common/wasm_blocking_op.c:25-39 | Succeeds if and only if TERMINATE is not set, and then sets BLOCKING; else leaves the flags alone |
| BlockingOp.ExecEnv.EndBlockingOp | components/wamr/core/iwasm/common/wasm_blocking_op.c:41-51 | Clears BLOCKING only |
| BlockingOp.ExecEnv.InterruptBlockingOp | components/wamr/core/iwasm/common/wasm_blocking_op.c:53-78 | Sets TERMINATE, wakes the worker once for every test that finds BLOCKING set, and returns at the first that finds it clear, whatever the other threads do to the flags in between |
| BlockingOp.BeginIsWorkerSteps | components/wamr/core/iwasm/common/wasm_blocking_op.c:25-39 | An undisturbed begin takes the atomic steps to the outcome of BeginBlockingOp |
| BlockingOp.EndIsWorkerSteps | components/wamr/core/iwasm/common/wasm_blocking_op.c:41-51 | And an end to that of EndBlockingOp |
| BlockingOp.CallIsInterruption | components/wamr/core/iwasm/common/wasm_blocking_op.c:67-77 | In every interleaving a call of any interrupter, from its SET on, wakes the worker and returns just as InterruptBlockingOp promises for the flags its own tests find, and they all find TERMINATE set |
| BlockingOp.OneOutcome | components/wamr/core/iwasm/common/wasm_blocking_op.c:69-77 | Those flags decide the number of wakeups and whether the call returns |
| BlockingOp.InterrupterReturns | components/wamr/core/iwasm/common/wasm_blocking_op.c:69-77 | While the worker stays outside, every interrupter returns within two steps of its own |
| Steering.Controller.PressedOnce | components/game_app/control.c:54-73 | One sample moves the debouncer of its button and leaves the other one alone |
| Steering.Controller.Turn | components/game_app/control.c:76-88 | The heading makes a quarter turn and the key is the one for the new heading |
| Steering.Controller.GetPlayerState | components/game_app/control.c:98-113 | One frame of one player: state and key are those of the specification; other players get nothing |
| Steering.RunDebounces | components/game_app/control.c:54-73 | Over every run each button fires exactly on the fourth consecutive low sample it takes |
| Steering.SampleDebounces | components/game_app/control.c:54-73 | Every sample keeps that |
| Steering.OncePerHold | components/game_app/control.c:54-73 | Between two presses the button is seen released |
| Steering.ShadowIsInStep | snake-mbt/README.md:49-50 | Over every run the shadow heading is a unit axis vector and equals the direction of a game that only takes perpendicular keys when its input byte changes |
| Steering.KeyMeansTurn | components/game_app/control.c:76-113 | A key is sent exactly when the heading changes, and is never the key of the old heading |
| Steering.ConsecutiveKeysDiffer | components/game_app/control.c:98-113 | Two consecutive non-zero bytes differ, so the game sees every pulse |
| Steering.ButtonsTurn | components/game_app/control.c:76-113 | The left button takes up to left, left to down, down to right and right to up, the right button the other way round; the left one comes first |
| ValueProfile.Site.Instrument | components/wamr/core/iwasm/aot/aot_runtime.c:4323-4389 | On linked nodes in place: bump, append, evict or wear down, in every case exactly what the list specification says; a fault exactly where the source uses a null pointer for the rarest node |
| ValueProfile.Site.Walk | components/wamr/core/iwasm/aot/aot_runtime.c:4346-4358 | The walk stops at the node of the value, or at the end with the last node and the first of the rarest |
| ValueProfile.Site.Wear | components/wamr/core/iwasm/aot/aot_runtime.c:4360-4370 | The rarest value is replaced if it is not more frequent than the new one, else worn down |
| ValueProfile.Site.Append | components/wamr/core/iwasm/aot/aot_runtime.c:4372-4388 | A node is linked behind the last one |
| ValueProfile.FirstMin | components/wamr/core/iwasm/aot/aot_runtime.c:4346-4358 | The index of the first entry with the smallest count |
| ValueProfile.Find | components/wamr/core/iwasm/aot/aot_runtime.c:4346-4358 | The first entry with the value, or the length of the list |
| ProfileRuns.RunIsSound | components/wamr/core/iwasm/aot/aot_runtime.c:4323-4389 | After every run: distinct values, at most 255 nodes, no count above the true total of its value, and the counts together not above all events together |
| ProfileRuns.RecordedStaysSound | components/wamr/core/iwasm/aot/aot_runtime.c:4346-4388 | One instrumentation keeps that |
| ProfileRuns.PositiveIff | components/wamr/core/iwasm/aot/aot_runtime.c:4347-4349 | The counts stay positive throughout a run if and only if no event brings a count to exactly 2^64 |
| ProfileRuns.RunIsPositive | components/wamr/core/iwasm/aot/aot_runtime.c:4347-4349 | In particular while no value has been seen 2^64 times |
| ProfileRuns.NotStuckBefore | components/wamr/core/iwasm/aot/aot_runtime.c:4346-4370 | A full list has a rarest node until 255 times the largest count has been seen, so its pointer is not null |
| ProfileRuns.StuckAfterUnits | components/wamr/core/iwasm/aot/aot_runtime.c:4346-4370 | With exactly that many, recorded one at a time as the callers do, the list can be full of the largest count, and the next value is where the null pointer is used |
| ProfileRuns.ListIsAdmitted | components/wamr/core/iwasm/aot/aot_runtime.c:4346-4388 | Over every run the list has a node for every value seen while one could be allocated, up to 255 |
| ProfileRuns.ShortIff | components/wamr/core/iwasm/aot/aot_runtime.c:4722 | Over every run the list passes the assertion of the dump if and only if fewer than 255 values were seen while a node could be allocated |
| ProfileRuns.CleanRunIsExact | components/wamr/core/iwasm/aot/aot_runtime.c:4346-4388 | While nothing is evicted, worn down or dropped every count is exact modulo 2^64 and the values are those seen |
| ProfileRuns.CleanRunIsExactIff | components/wamr/core/iwasm/aot/aot_runtime.c:4346-4388 | All of them are exact if and only if no value was seen 2^64 times or more |
| ProfileRuns.CleanIff | components/wamr/core/iwasm/aot/aot_runtime.c:4346-4388 | Nothing is evicted, worn down or dropped if and only if at most 255 values were seen and there was a node for each |
| ProfileRuns.ExactIff | components/wamr/core/iwasm/aot/aot_runtime.c:4346-4388 | Over every run all counts are exact if and only if both hold: at most 255 values with a node for each, none seen 2^64 times |
| ProfileRuns.DirtyEventLoses | components/wamr/core/iwasm/aot/aot_runtime.c:4346-4388 | Any other event takes something away from its own value or an evicted one |
| ProfileRuns.EvictsIff | components/wamr/core/iwasm/aot/aot_runtime.c:4360-4370 | On a full list a new value displaces the first of the rarest if and only if some count is not above its own; if not, it stays out and the counts fall by as much; no other entry changes |
| ProfileImage.RecordFindsItsCounters | components/wamr/core/iwasm/aot/aot_runtime.c:4590-4664 | In the written file the position of every data record plus its offset_counters is where the bytes of its own counter section start |
| ProfileImage.ReadValueDataBack | components/wamr/core/iwasm/aot/aot_runtime.c:4678-4757 | A reader of the value data, delimited by its own size field, gets back every list of every site, whatever the skipped padding holds |
| ProfileImage.ReadKindsBack | components/wamr/core/iwasm/aot/aot_runtime.c:4691-4747 | The kinds that have sites are read back in order |
| ProfileImage.ReadKindBack | components/wamr/core/iwasm/aot/aot_runtime.c:4700-4746 | One kind: number, site count, node counts, padding and nodes are read back |
| ProfileImage.ReadListsBack | components/wamr/core/iwasm/aot/aot_runtime.c:4712-4745 | The lists of all sites are read back from their counts |
| ProfileImage.ReadPairsBack | components/wamr/core/iwasm/aot/aot_runtime.c:4730-4744 | One list of nodes is read back |
| ProfileImage.MatchingSizes | components/wamr/core/iwasm/aot/aot_runtime.c:4462-4481 | With matching sizes the counter bytes of the first k sections are those of the counters of the first k records |
| ProfileFile.ImageIsRead | components/wamr/core/iwasm/aot/aot_runtime.c:4566-4763 | A reader that decodes the header at its field offsets, and from the numbers there finds records, counters, names and value data, gets back the fields of every record, the counters, the names and every value list, whatever follows the file |
| ProfileFile.HeaderRead | components/wamr/core/iwasm/aot/aot_runtime.c:4590-4626 | The header fields at their offsets: magic, version, the numbers of records and of counters, the size of the names and the distance to the counters |
| ProfileFile.ReadValuesBack | components/wamr/core/iwasm/aot/aot_runtime.c:4666-4757 | The value data of all records, one behind the other, is read back with the site counts of the records |
| ProfileDump.GetPgoProfDataSize | components/wamr/core/iwasm/aot/aot_runtime.c:4450-4550 | The size pass returns the size of the file and the figures of the header, or zeros if the counter sizes do not match |
| ProfileDump.SectionTotals | components/wamr/core/iwasm/aot/aot_runtime.c:4462-4478 | The first loop: records, counters, counter bytes and the last names section |
| ProfileDump.SizeOfValues | components/wamr/core/iwasm/aot/aot_runtime.c:4493-4532 | The nested loops of the size pass add up to the size of all value data |
| ProfileDump.DumpPgoProfDataToBuf | components/wamr/core/iwasm/aot/aot_runtime.c:4566-4763 | Writes exactly the file whose length the size pass returned, leaves everything else alone, and changes nothing if the buffer is too short; if the counter sizes do not match the size pass returns 0, and a store goes beyond the buffer if and only if the buffer ends before the last byte stored, padding that is only skipped not counted; when both assertions hold |
| ProfileDump.DumpOverruns | components/wamr/core/iwasm/aot/aot_runtime.c:4566-4763 | A record with a counter and a site but no counters runs over every buffer of fewer than 153 bytes |
| ProfileDump.Store | components/wamr/core/iwasm/aot/aot_runtime.c:4626-4754 | Every store, with the end of the furthest one so far |
| ProfileDump.CounterOffsets | components/wamr/core/iwasm/aot/aot_runtime.c:4590-4600 | The running offsets are the distances from each record to its counters |
| ProfileDump.PutRecords | components/wamr/core/iwasm/aot/aot_runtime.c:4628-4656 | The records with these offsets |
| ProfileDump.PutCounterSections | components/wamr/core/iwasm/aot/aot_runtime.c:4658-4664 | The bytes of the counter sections one behind the other |
| ProfileDump.PutValueData | components/wamr/core/iwasm/aot/aot_runtime.c:4678-4757 | The value data of one record, its size patched in last |
| ProfileDump.PutKind | components/wamr/core/iwasm/aot/aot_runtime.c:4700-4746 | One kind, with the padding skipped and its old bytes kept |
| ProfileDump.PutCounts | components/wamr/core/iwasm/aot/aot_runtime.c:4712-4724 | One count byte for each site; reports whether the assertion held |
| ProfileDump.PutLists | components/wamr/core/iwasm/aot/aot_runtime.c:4729-4745 | The nodes of all sites of one kind |
| HeapInsertion.AppHeapSize | components/wamr/core/iwasm/aot/aot_runtime.c:1706-1709 | The heap size handed down is a multiple of eight and at most 512 MB |
| HeapInsertion.MemoryInstantiate | components/wamr/core/iwasm/aot/aot_runtime.c:854-979 | The variable-by-variable computation yields the layout of the specification, with 32-bit wrap-around |
| HeapInsertion.DividesByZeroIff | components/wamr/core/iwasm/aot/aot_runtime.c:921-963 | It divides by a page size of zero exactly when it has to insert pages |
| HeapInsertion.InsertionIsSafeIff | components/wamr/core/iwasm/aot/aot_runtime.c:891-989 | For every requested size and every memory of at most 4 GB an inserted heap lies behind the program, inside the memory and in front of the rewritten __heap_base, with initial pages not above maximum pages, if and only if the memory is one page or has the room: a kilobyte left on the page or behind it in front of __heap_base, new pages of at least a kilobyte behind the memory, and where the 32-bit page count wraps a heap that fits without new pages |
| HeapInsertion.BeforeBaseIsSafeIff | components/wamr/core/iwasm/aot/aot_runtime.c:928-979 | In front of __heap_base without wrapping: safe exactly if a kilobyte is left |
| HeapInsertion.BeforeBaseGrows | components/wamr/core/iwasm/aot/aot_runtime.c:928-979 | The heap takes the place of the base and the memory grows by the pages its end moves, and one more if less than a kilobyte is left |
| HeapInsertion.BeforeBaseWraps | components/wamr/core/iwasm/aot/aot_runtime.c:928-979 | When the page count wraps the memory is left as it is: safe exactly if the heap fits it |
| HeapInsertion.BehindIsSafeIff | components/wamr/core/iwasm/aot/aot_runtime.c:960-979 | Behind the memory: whole new pages, the heap is all but a kilobyte of them; safe exactly if they have that kilobyte |
| HeapInsertion.BehindWraps | components/wamr/core/iwasm/aot/aot_runtime.c:960-979 | When the page count wraps there is no heap |
| HeapInsertion.InsertionIsSafe | components/wamr/core/iwasm/aot/aot_runtime.c:891-989 | In particular safe with pages of at least 1 KB that together with the heap fit 32 bits |
| HeapInsertion.WholeMemory | components/wamr/core/iwasm/aot/aot_runtime.c:921-927 | An always empty memory becomes one page, all heap |
| HeapInsertion.InsertedPages | components/wamr/core/iwasm/aot/aot_runtime.c:931-939 | The page count computed from the bytes to the page end is the distance between the old and the new page end |
| HeapInsertion.SmallPageOverflows | components/wamr/core/iwasm/aot/aot_runtime.c:960-979 | With a page of 512 bytes a request for 100 bytes ends outside the memory |
| HeapInsertion.BigPageOverflows | components/wamr/core/iwasm/aot/aot_runtime.c:928-979 | So does one of 512 MB in front of a base near the end of a page of almost 4 GB, an input that the assertion on the maximum number of pages rejects |
| HeapInsertion.AssertedNeverWraps | components/wamr/core/iwasm/aot/aot_runtime.c:928-990 | Under that assertion no page count in front of __heap_base wraps, and the memory is at most 4 GB |
| HeapInsertion.InsertionFitsIff | components/wamr/core/iwasm/aot/aot_runtime.c:909-989 | With a heap to insert, it fails exactly if the memory has four gigabytes already or would pass the page limit; otherwise it has exactly the size computed from page ends, and the maximum moves by as many pages up to the limit |
| HeapInsertion.NoHeapLeavesMemory | components/wamr/core/iwasm/aot/aot_runtime.c:885-921 | Without a heap, because none is asked for or the program has its own, the layout is that of the module |
| HeapInsertion.SinglePageGrows | components/wamr/core/iwasm/aot/aot_runtime.c:909-921 | A single page grows by exactly the heap, and it fails exactly if that passes 32 bits |
| HeapInsertion.MaxIsNearest | components/wamr/core/iwasm/common/wasm_runtime_common.c:1580-1602 | The page limit is the one nearest to the limit asked for that the module allows, and its maximum if none is |
| InstanceLayout.LoadImportGlobals | components/wamr/core/iwasm/aot/aot_loader.c:2070-2106 | The offsets assigned to imported globals are the sizes of the globals before |
| InstanceLayout.LoadGlobals | components/wamr/core/iwasm/aot/aot_loader.c:2141-2189 | Own globals continue behind the last import, and the data size is the total |
| InstanceLayout.InstantiateGlobals | components/wamr/core/iwasm/aot/aot_runtime.c:442-658 | The walked pointer equals every offset of the loader and ends at the data size (all three assertions); it fails exactly when an initialiser reads something else than an imported constant |
| InstanceLayout.TableSize | components/wamr/core/iwasm/aot/aot_runtime.c:1711-1730 | The size pass reserves what the instantiator will walk |
| InstanceLayout.PutTables | components/wamr/core/iwasm/aot/aot_runtime.c:681-719 | Every table instance starts where the ones before end, with its sizes and null slots; its element type is read at its number among all tables from the array of the own ones, which reads behind that array if and only if there are imported tables |
| InstanceLayout.InstantiateTables | components/wamr/core/iwasm/aot/aot_runtime.c:660-813 | Fails exactly when an active segment does not fit; otherwise the block holds globals and tables with every segment applied, and nothing else has changed |
| InstanceLayout.FillActive | components/wamr/core/iwasm/aot/aot_runtime.c:733-809 | One segment is refused exactly when it does not fit its table, and changes only its own slots |
| InstanceLayout.CheckIsWrongIff | components/wamr/core/iwasm/aot/aot_runtime.c:774-798 | The 32-bit check accepts a segment that does not fit exactly if its end passes 2^32 |
| InstanceLayout.BaseOffset | components/wamr/core/iwasm/aot/aot_runtime.c:751-772 | A segment's base read through the loader's offset of a global is the value of that global |
| InstanceLayout.Instantiate | components/wamr/core/iwasm/aot/aot_runtime.c:1711-1845 | The whole block: exactly the reserved size, globals and tables in it, zeros around them |
| InstanceLayout.BlockHoldsGlobal | components/wamr/core/iwasm/aot/aot_runtime.c:760-769 | A reader that uses the loader's offset finds the bytes of the global |
| InstanceLayout.BlockHoldsSizes | components/wamr/core/iwasm/aot/aot_runtime.c:681-719 | A reader that follows a table pointer finds the element type taken for it and its sizes |
| InstanceLayout.BlockHoldsElement | components/wamr/core/iwasm/aot/aot_runtime.c:805-808 | And its elements |
| InstanceLayout.TablesAreApart | components/wamr/core/iwasm/aot/aot_runtime.c:714-719 | Table instances do not overlap and end exactly where the space reserved for them ends |
| InstanceLayout.SlotIsLastWritten | components/wamr/core/iwasm/aot/aot_runtime.c:721-810 | A slot holds what the last segment covering it put there |
| InstanceLayout.UncoveredSlotIsNull | components/wamr/core/iwasm/aot/aot_runtime.c:704-712 | And a null reference if none does |
| InstanceLayout.InitialisedByGlobal | components/wamr/core/iwasm/aot/aot_runtime.c:464-479 | On the block: a global initialised with global j is, at the loader's offsets, a copy of the bytes of global j, which is imported and constant |
| InstanceLayout.InitialisedByConst | components/wamr/core/iwasm/aot/aot_runtime.c:645-652 | A constant is read back as its own bytes in the width of the type |
| InstanceLayout.InitialisedByNull | components/wamr/core/iwasm/aot/aot_runtime.c:496-501 | A null reference is read back as 0xFFFFFFFF |
| InstanceLayout.BlockHoldsLinked | components/wamr/core/iwasm/aot/aot_runtime.c:454-460 | An imported global is read back as what it is linked to |
| InstanceLayout.BlockHoldsLastWritten | components/wamr/core/iwasm/aot/aot_runtime.c:721-810 | A reader of a slot of the block finds what the last segment covering it has there, its base read from the block too, and null if none does |
| InstanceLayout.InstantiatesIff | components/wamr/core/iwasm/aot/aot_runtime.c:442-813 | It succeeds if and only if every global read is an imported constant and every active segment ends inside the initial size of its table |
| AotFile.Section.Read | components/wamr/core/iwasm/aot/aot_loader.c:205-220 | A read is aligned and stays inside the section, or fails |
| NameSection.StringInSection | components/wamr/core/iwasm/aot/aot_loader.c:335-392 | A string that is loaded is its aligned 16-bit length, that many bytes inside the section, and a zero as the last of them, which it leaves out |
| NameSection.Module.LoadNameSection | components/wamr/core/iwasm/aot/aot_loader.c:711-829 | Succeeds if and only if the section is well-formed and memory for its names can be allocated, and leaves exactly the names of the section in the table, or those in front of the fault |
| NameSection.Module.LoadFuncNames | components/wamr/core/iwasm/aot/aot_loader.c:766-819 | The same for the function sub-section |
| NameSection.Module.LoadEntries | components/wamr/core/iwasm/aot/aot_loader.c:790-818 | The same for the entries, read one behind the other |
| NameSection.EmittedIsParsed | components/wamr/core/iwasm/compilation/aot_emit_aot_file.c:1529-1613 | A section the compiler writes is well-formed and gives back the names that went into it |
| NameSection.EmittedEntriesParse | components/wamr/core/iwasm/compilation/aot_emit_aot_file.c:1571-1600 | The aligned, zero-terminated entries are read back |
| NameSection.NoMoreNames | components/wamr/core/iwasm/aot/aot_loader.c:748-764 | What follows a function sub-section changes nothing about the names |
| NameSection.EntriesAscend | components/wamr/core/iwasm/aot/aot_loader.c:790-812 | The indexes stored are strictly increasing and below the function count |
| NameSection.Module.LookupFuncName | components/wamr/core/iwasm/aot/aot_runtime.c:3704-3726 | The search loop finds what the recursive search finds |
| NameSection.SearchFinds | components/wamr/core/iwasm/aot/aot_runtime.c:3708-3725 | On strictly increasing indexes the search finds the position of every index present |
| NameSection.LookupIsExact | components/wamr/core/iwasm/aot/aot_runtime.c:3704-3726 | After a successful load the lookup returns a name exactly when the section gives it to that index, and NULL exactly when it gives none |
| NameSection.LookupIsNeverWrong | components/wamr/core/iwasm/aot/aot_runtime.c:3704-3726 | Even after a failed load, which is tolerated, a name found is the one the section gives to that index |
| NameSection.NamesFoundIff | components/wamr/core/iwasm/aot/aot_loader.c:911-915 | After any load every name loaded is found if and only if the search for the last of them does not probe behind the indexes stored |
| NameSection.SearchStrays | components/wamr/core/iwasm/aot/aot_runtime.c:3708-3725 | A probe behind them leads away from every index, or stops at a null name |
| NameSection.FailedLoadHidesNames | components/wamr/core/iwasm/aot/aot_loader.c:911-915 | There is a section, cut short, whose load fails, keeps a name, and hides it |
| NameSection.NameIsRequired | components/wamr/core/iwasm/aot/aot_loader.c:734-748 | Only a section called "name" is accepted |
| NameSection.OthersAreSkipped | components/wamr/core/iwasm/aot/aot_loader.c:750-829 | A sub-section of another type, or an empty one, is skipped by its size if the types increase, and makes the section malformed if they do not |
| SymbolTable.ValidateSymbolTable | components/wamr/core/iwasm/aot/aot_loader.c:3245-3267 | Accepts exactly the tables whose records follow each other and tile the buffer |
| SymbolTable.AcceptedOffsets | components/wamr/core/iwasm/aot/aot_loader.c:3245-3267 | Then every offset points at a length-prefixed record wholly inside the buffer, which ends where the next one starts |
| SymbolTable.ReadRecord | components/wamr/core/iwasm/aot/aot_loader.c:3253-3262 | At even positions of a 2-byte aligned section aligning addresses is aligning offsets |
| Intrinsics.Clz | components/wamr/core/iwasm/aot/aot_intrinsic.c:184-208 | The number of leading zeros of every word of any width, 32 and 64 included |
| Intrinsics.Ctz | components/wamr/core/iwasm/aot/aot_intrinsic.c:210-234 | The number of trailing zeros of every word, the width for 0 |
| Intrinsics.Popcnt | components/wamr/core/iwasm/aot/aot_intrinsic.c:236-256 | The number of ones of every word |
| Intrinsics.AndPredecessor | components/wamr/core/iwasm/aot/aot_intrinsic.c:236-256 | x & (x - 1) drops exactly one of the ones |
| Intrinsics.InstrProfGetRangeRepValue | components/wamr/core/iwasm/aot/aot_runtime.c:4424-4439 | The loops compute the representative of the range |
| Intrinsics.Magnitude | components/wamr/core/iwasm/aot/aot_runtime.c:4424-4439 | The shift by the leading zeros gives the power of two below the value |
| Intrinsics.SingleOne | components/wamr/core/iwasm/aot/aot_runtime.c:4398-4439 | One bit set means power of two |
| Intrinsics.RangeRepIdempotent | components/wamr/core/iwasm/aot/aot_runtime.c:4424-4439 | A representative represents itself and is not above the value |
| Intrinsics.RangeRepMonotone | components/wamr/core/iwasm/aot/aot_runtime.c:4424-4439 | Representatives are in the order of the values |
| Intrinsics.RangeRepOf | components/wamr/core/iwasm/aot/aot_runtime.c:4424-4439 | Sizes up to 8 and powers of two up to 512 stand for themselves, a size between two powers for the lower one plus one, and every size above 512 for 513 |

## Left out

- The 32-bit overflow of coordinates in the rasteriser: they are mathematical integers.
- A sprite, text or palette that lies inside the framebuffer it is drawn to: sprites are values.
- The wait of the panel driver: a transfer may read its block at any time up to the start of the next one, which is what a queue of depth one guarantees (`components/BSP/LCD/lcd.c:62-65`); the panel itself is a map from positions to colours.
- The game itself: only the direction gate `snake-mbt/README.md` describes. The pins are inputs; a frame on which the left button fires does not sample the right one, so debouncing is stated over the samples taken.
- BlockingOp.StepKeepsInv: the rest of the runtime may set TERMINATE and change other flags but does not clear TERMINATE or touch BLOCKING; the clearing of flags when a thread manager reuses an environment (`components/wamr/core/iwasm/libraries/thread-mgr/thread_manager.c`) is not part of this model. The wakeup itself and the sleep between two tests are steps without effect.
- BlockingOp.RunKeepsInv: the variant that takes a lock around several steps is covered because it has fewer interleavings; that a thread is scheduled again, and so that the worker leaves its operation when it is woken up, is not modelled.
- CustomSection.CreateCustomSectionAligned: when the search succeeds is determined for powers of two, the alignments the mask is meant for. Names are byte strings, reading and writing files is left out.
- ValueProfile.Site.Instrument: one thread at a time; the compare-and-swap that publishes a node is an assignment. The array of list heads and the target lookup are left out, a failing allocation is a flag.
- ProfileDump.DumpPgoProfDataToBuf: the buffer is the start of a memory that goes on behind it, with room for all that is stored; what the bytes there are for is not modelled. Sums are naturals, so a dump of 4 GB or more is not modelled, nor is the big-endian byte order. The value lists are sequences (their nodes are those of `ValueProfile`), and the offsets are handed over as a sequence instead of being stored in the records in between.
- HeapInsertion.InsertionIsSafeIff: the memory is at most 4 GB, which the assertion of the source on the maximum number of pages implies; 64-bit and shared memories, the allocation and the initialisation of the heap are left out; writing the new __heap_base into the global data is the field `heapBase`.
- InstanceLayout.InstantiateTables: what a reader finds behind the module's own tables is a parameter. Garbage-collected references, the allocation of the array of table pointers (it succeeds) and totals above 4 GB are left out. Globals and tables are as WebAssembly validation leaves them, and segments whose end passes 2^32 behind a base inside the table, which the check accepts by mistake, are left out.
- InstanceLayout.Instantiate: the structures in front of and behind the data are bytes nobody writes.
- NameSection.Module.LoadNameSection: allocation failures are two flags; strings are read in place. Of the compiler only the layout of a section with one function sub-section is modelled.
- SymbolTable.ValidateSymbolTable: the section starts at an even address and is shorter than 4 GB.
- Relocations, native calls, object data sections, mmap and mprotect, thread creation, Wi-Fi, storage and the command line: device and system plumbing, not part of this model.
- The arithmetic wrappers and float intrinsics beside clz, ctz and popcnt: single expressions.
