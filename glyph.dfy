/** Glyph compositing as graphics_draw_char (graphics.c) performs it: the coarse
    placement check, the clamped glyph lookup in the coverage atlas, the per-channel
    blend, and the scaled, clipped writes into the flat backbuffer. */
module Glyphs {
  import opened Uefi
  import opened Arith
  import opened PixelLayout

  /** The atlas holds 16 scanlines of 1792 coverage bytes: 8 columns for each of the
      glyphs of codes 32, 33, ... placed side by side. */
  const AtlasWidth: nat := 1792
  const GlyphWidth: nat := 8
  const GlyphHeight: nat := 16
  const AtlasSize: nat := AtlasWidth * GlyphHeight
  const FirstCode: nat := 32

  /** Position of a character's glyph in the atlas: codes below 32 draw the glyph of 32. */
  function GlyphIndex(character: uint8): (n: nat)
    ensures (n + 1) * GlyphWidth <= AtlasWidth
  {
    if character < FirstCode then 0 else character - FirstCode
  }

  /** `ascii_bitmap[bitmap_y + bitmap_x]` for glyph row `row` and column `col`. */
  function AtlasIndex(character: uint8, row: nat, col: nat): (k: nat)
    requires row < GlyphHeight && col < GlyphWidth
    ensures k < AtlasSize
    ensures k / AtlasWidth == row && k % AtlasWidth == GlyphIndex(character) * GlyphWidth + col
  {
    row * AtlasWidth + GlyphIndex(character) * GlyphWidth + col
  }

  /** Control characters share the glyph of the space character. */
  lemma ControlCharactersDrawSpace(character: uint8, row: nat, col: nat)
    requires character < FirstCode && row < GlyphHeight && col < GlyphWidth
    ensures AtlasIndex(character, row, col) == AtlasIndex(FirstCode, row, col)
  {
  }

  /** `(base * (256 - v) + target * v) >> 8`: the new channel value always lies between
      the old one and the target, zero coverage keeps the old value, and full coverage
      falls one short of the target whenever the old value is below it. */
  function BlendChannel(base: uint8, target: uint8, v: uint8): (c: uint8)
    ensures base <= target ==> base <= c <= target
    ensures target <= base ==> target <= c <= base
    ensures v == 0 ==> c == base
    ensures v == 255 ==> c == if base < target then target - 1 else target
  {
    var n := base * (256 - v) + target * v;
    BlendBounds(base, target, v);
    n / 256
  }

  lemma BlendBounds(base: uint8, target: uint8, v: uint8)
    ensures var n := base * (256 - v) + target * v;
      (base <= target ==> base * 256 <= n <= target * 256)
      && (target <= base ==> target * 256 <= n <= base * 256)
  {
    var n := base * (256 - v) + target * v;
    assert n == base * 256 + (target - base) * v;
    if base <= target {
      MulMonotone(target - base, 0, v);
      MulMonotone(target - base, v, 256);
    } else {
      MulMonotone(base - target, 0, v);
      MulMonotone(base - target, v, 256);
    }
  }

  /** The value graphics_draw_char writes over `pixel` for coverage v: each channel
      blended towards the same channel of `color`, then repacked. */
  function BlendPixel(pixel: uint32, color: uint32, v: uint8, f: ChannelOffsets): (blended: uint32)
  {
    Pack(
      BlendChannel(Channel(pixel, f.red), Channel(color, f.red), v),
      BlendChannel(Channel(pixel, f.green), Channel(color, f.green), v),
      BlendChannel(Channel(pixel, f.blue), Channel(color, f.blue), v),
      f)
  }

  /** For a pixel of disjoint channels, the blended pixel carries the blended channel
      values in the channels' bytes and zero in the remaining byte. */
  lemma BlendPixelChannels(pixel: uint32, color: uint32, v: uint8, f: ChannelOffsets)
    requires Disjoint(f)
    ensures Channel(BlendPixel(pixel, color, v, f), f.red)
      == BlendChannel(Channel(pixel, f.red), Channel(color, f.red), v)
    ensures Channel(BlendPixel(pixel, color, v, f), f.green)
      == BlendChannel(Channel(pixel, f.green), Channel(color, f.green), v)
    ensures Channel(BlendPixel(pixel, color, v, f), f.blue)
      == BlendChannel(Channel(pixel, f.blue), Channel(color, f.blue), v)
    ensures Channel(BlendPixel(pixel, color, v, f), ReservedOffset(f)) == 0
  {
    PackThenChannel(
      BlendChannel(Channel(pixel, f.red), Channel(color, f.red), v),
      BlendChannel(Channel(pixel, f.green), Channel(color, f.green), v),
      BlendChannel(Channel(pixel, f.blue), Channel(color, f.blue), v),
      f);
  }

  /** Zero coverage keeps the three channels but clears the remaining byte, so the pixel
      is left as it was exactly when that byte was already zero. */
  lemma BlendPixelZeroCoverage(pixel: uint32, color: uint32, f: ChannelOffsets)
    requires Disjoint(f)
    ensures BlendPixel(pixel, color, 0, f)
      == pixel - Channel(pixel, ReservedOffset(f)) * ShiftFactor(ReservedOffset(f))
    ensures BlendPixel(pixel, color, 0, f) == pixel <==> Channel(pixel, ReservedOffset(f)) == 0
  {
    var c0, c1, c2, c3 := Channel(pixel, 0), Channel(pixel, 8), Channel(pixel, 16), Channel(pixel, 24);
    PixelByLane(pixel);
    assert Channel(pixel, f.red) == ByteAt(c0, c1, c2, c3, f.red);
    assert Channel(pixel, f.green) == ByteAt(c0, c1, c2, c3, f.green);
    assert Channel(pixel, f.blue) == ByteAt(c0, c1, c2, c3, f.blue);
    assert Channel(pixel, ReservedOffset(f)) == ByteAt(c0, c1, c2, c3, ReservedOffset(f));
    var z := ReservedOffset(f);
    var lost := ByteAt(c0, c1, c2, c3, z) * ShiftFactor(z);
    assert BlendPixel(pixel, color, 0, f) == Pack(Channel(pixel, f.red), Channel(pixel, f.green), Channel(pixel, f.blue), f);
    PackOfBytes(c0, c1, c2, c3, f);
    assert BlendPixel(pixel, color, 0, f) == pixel - lost;
    if ByteAt(c0, c1, c2, c3, z) != 0 {
      MulAtLeast(ByteAt(c0, c1, c2, c3, z), ShiftFactor(z));
    }
  }

  /** A BGR pixel with only its reserved byte set comes out as 0 under zero coverage,
      whatever the colour. */
  lemma ZeroCoverageClearsReservedByte(color: uint32)
    ensures BlendPixel(0xFF00_0000, color, 0, ChannelOffsets(16, 8, 0)) == 0
  {
    var f := ChannelOffsets(16, 8, 0);
    assert Channel(0xFF00_0000, 16) == 0 && Channel(0xFF00_0000, 8) == 0 && Channel(0xFF00_0000, 0) == 0;
    assert Pack(0, 0, 0, f) == 0;
  }

  /** What graphics_draw_char reads of the output record: its size and channel shifts. */
  datatype Surface = Surface(width: uint32, height: uint32, offsets: ChannelOffsets)

  /** The arguments of one graphics_draw_char call. */
  datatype GlyphDraw = GlyphDraw(character: uint8, color: uint32, x: int32, y: int32, scale: uint8)

  /** The placement check: `x + 8 >= width || y + 16 >= height` turns the call away.
      Both sums are converted to UINT32 for the comparison, so a negative sum wraps
      around to a large value. */
  predicate PlacementAccepted(s: Surface, g: GlyphDraw)
  {
    (g.x + GlyphWidth) % 0x1_0000_0000 < s.width && (g.y + GlyphHeight) % 0x1_0000_0000 < s.height
  }

  /** On any realistic surface the check accepts exactly the positions whose unscaled
      8x16 box starts no further than 8 columns left of and 16 rows above the buffer
      and ends strictly inside it. */
  lemma PlacementAcceptedExactly(s: Surface, g: GlyphDraw)
    requires s.width <= 0x8000_0000 && s.height <= 0x8000_0000
    ensures PlacementAccepted(s, g) <==>
      -8 <= g.x && g.x + 8 < s.width && -16 <= g.y && g.y + 16 < s.height
  {
    if g.x < -8 {
      DivMod(g.x + GlyphWidth, 0x1_0000_0000, -1, g.x + GlyphWidth + 0x1_0000_0000);
    } else {
      DivMod(g.x + GlyphWidth, 0x1_0000_0000, 0, g.x + GlyphWidth);
    }
    if g.y < -16 {
      DivMod(g.y + GlyphHeight, 0x1_0000_0000, -1, g.y + GlyphHeight + 0x1_0000_0000);
    } else {
      DivMod(g.y + GlyphHeight, 0x1_0000_0000, 0, g.y + GlyphHeight);
    }
  }

  /** A glyph that would end exactly on the last column is turned away. */
  lemma FlushRightGlyphRejected(s: Surface, g: GlyphDraw)
    requires g.x >= 0 && g.x + GlyphWidth == s.width
    ensures !PlacementAccepted(s, g)
  {
  }

  /** Pixel k of the width*height buffer lies in the scaled glyph box: its column and
      row are at most 8*scale and 16*scale past (x, y). */
  predicate InFootprint(s: Surface, g: GlyphDraw, k: int)
  {
    s.width > 0 && 0 <= k
    && 0 <= k % s.width - g.x < GlyphWidth * g.scale
    && 0 <= k / s.width - g.y < GlyphHeight * g.scale
  }

  /** Glyph cell (row, col) and position (i, j) inside its scale x scale block. */
  datatype Cell = Cell(row: nat, col: nat, i: nat, j: nat)

  /** The glyph cell a pixel of the footprint is painted from. */
  function CellOf(s: Surface, g: GlyphDraw, k: int): (c: Cell)
    requires InFootprint(s, g, k)
    ensures c.row < GlyphHeight && c.col < GlyphWidth && c.i < g.scale && c.j < g.scale
    ensures k % s.width == g.x + c.col * g.scale + c.j
    ensures k / s.width == g.y + c.row * g.scale + c.i
  {
    var dx, dy := k % s.width - g.x, k / s.width - g.y;
    QuotientBelow(dx, g.scale, GlyphWidth);
    QuotientBelow(dy, g.scale, GlyphHeight);
    Cell(dy / g.scale, dx / g.scale, dy % g.scale, dx % g.scale)
  }

  /** Pixel k after the glyph is drawn over `before`. */
  function DrawnPixel(atlas: seq<uint8>, s: Surface, g: GlyphDraw, before: seq<uint32>, k: nat): (drawn: uint32)
    requires |atlas| == AtlasSize && k < |before|
  {
    if InFootprint(s, g, k) then
      var c := CellOf(s, g, k);
      BlendPixel(before[k], g.color, atlas[AtlasIndex(g.character, c.row, c.col)], s.offsets)
    else before[k]
  }

  /** The whole buffer after the glyph is drawn over `before`. */
  function Drawn(atlas: seq<uint8>, s: Surface, g: GlyphDraw, before: seq<uint32>): (after: seq<uint32>)
    requires |atlas| == AtlasSize
  {
    seq(|before|, k requires 0 <= k < |before| => DrawnPixel(atlas, s, g, before, k))
  }

  /** The destination (x + col*scale + j, y + row*scale + i) of a glyph cell, when it
      lies in the buffer, is a footprint pixel painted from that very cell. */
  lemma DestinationCell(s: Surface, g: GlyphDraw, row: nat, col: nat, i: nat, j: nat)
    requires row < GlyphHeight && col < GlyphWidth && i < g.scale && j < g.scale
    requires 0 <= g.x + col * g.scale + j < s.width
    requires 0 <= g.y + row * g.scale + i < s.height
    ensures var k := (g.y + row * g.scale + i) * s.width + (g.x + col * g.scale + j);
      0 <= k < s.width * s.height && InFootprint(s, g, k) && CellOf(s, g, k) == Cell(row, col, i, j)
  {
    var px, py := g.x + col * g.scale + j, g.y + row * g.scale + i;
    RowMajorFits(s.width, s.height, py, px);
    BlockSplit(GlyphWidth, g.scale, col, j);
    BlockSplit(GlyphHeight, g.scale, row, i);
  }

  /** Every destination of a glyph cell inside the buffer is blended once, from its own
      old value, with that cell's coverage. */
  lemma DrawnAtDestination(atlas: seq<uint8>, s: Surface, g: GlyphDraw, before: seq<uint32>,
                           row: nat, col: nat, i: nat, j: nat)
    requires |atlas| == AtlasSize && |before| == s.width * s.height
    requires row < GlyphHeight && col < GlyphWidth && i < g.scale && j < g.scale
    requires 0 <= g.x + col * g.scale + j < s.width
    requires 0 <= g.y + row * g.scale + i < s.height
    ensures var k := (g.y + row * g.scale + i) * s.width + (g.x + col * g.scale + j);
      0 <= k < |before|
      && Drawn(atlas, s, g, before)[k]
         == BlendPixel(before[k], g.color, atlas[AtlasIndex(g.character, row, col)], s.offsets)
  {
    DestinationCell(s, g, row, col, i, j);
  }

  /** A pixel that changes is the in-buffer destination of some glyph cell. */
  lemma ChangedOnlyAtDestinations(atlas: seq<uint8>, s: Surface, g: GlyphDraw, before: seq<uint32>, k: nat)
    requires |atlas| == AtlasSize && |before| == s.width * s.height && k < |before|
    requires Drawn(atlas, s, g, before)[k] != before[k]
    ensures InFootprint(s, g, k)
    ensures var c := CellOf(s, g, k);
      0 <= g.x + c.col * g.scale + c.j < s.width
      && 0 <= g.y + c.row * g.scale + c.i < s.height
      && k == (g.y + c.row * g.scale + c.i) * s.width + (g.x + c.col * g.scale + c.j)
  {
    assert InFootprint(s, g, k);
    RowOf(k, s.width, s.height);
  }

  /** A zero scale paints nothing. */
  lemma ZeroScaleDrawsNothing(atlas: seq<uint8>, s: Surface, g: GlyphDraw, before: seq<uint32>)
    requires |atlas| == AtlasSize && g.scale == 0
    ensures Drawn(atlas, s, g, before) == before
  {
  }

  /** Over a glyph whose coverage is zero everywhere, every pixel keeps its channels
      and loses only its reserved byte. */
  lemma BlankGlyphKeepsChannels(atlas: seq<uint8>, s: Surface, g: GlyphDraw, before: seq<uint32>, k: nat)
    requires |atlas| == AtlasSize && k < |before| && Disjoint(s.offsets)
    requires forall row: nat, col: nat | row < GlyphHeight && col < GlyphWidth ::
      atlas[AtlasIndex(g.character, row, col)] == 0
    ensures var z := ReservedOffset(s.offsets);
      Drawn(atlas, s, g, before)[k] == if InFootprint(s, g, k) then before[k] - Channel(before[k], z) * ShiftFactor(z) else before[k]
  {
    if InFootprint(s, g, k) {
      BlendPixelZeroCoverage(before[k], g.color, s.offsets);
    }
  }

  /** The s x s block painted from one glyph cell over a uniform background is uniform. */
  lemma ScaledBlockUniform(atlas: seq<uint8>, s: Surface, g: GlyphDraw, before: seq<uint32>,
                           row: nat, col: nat, i1: nat, j1: nat, i2: nat, j2: nat)
    requires |atlas| == AtlasSize && |before| == s.width * s.height
    requires row < GlyphHeight && col < GlyphWidth
    requires i1 < g.scale && j1 < g.scale && i2 < g.scale && j2 < g.scale
    requires 0 <= g.x + col * g.scale + j1 < s.width && 0 <= g.y + row * g.scale + i1 < s.height
    requires 0 <= g.x + col * g.scale + j2 < s.width && 0 <= g.y + row * g.scale + i2 < s.height
    ensures var k1 := (g.y + row * g.scale + i1) * s.width + (g.x + col * g.scale + j1);
      var k2 := (g.y + row * g.scale + i2) * s.width + (g.x + col * g.scale + j2);
      0 <= k1 < |before| && 0 <= k2 < |before| &&
      (before[k1] == before[k2] ==> Drawn(atlas, s, g, before)[k1] == Drawn(atlas, s, g, before)[k2])
  {
    DrawnAtDestination(atlas, s, g, before, row, col, i1, j1);
    DrawnAtDestination(atlas, s, g, before, row, col, i2, j2);
  }

  /** Cell c is visited before cell (row, col) at block position (i, j) by the loops of
      graphics_draw_char, which run over row, col, i and j from the outside in. */
  predicate Before(c: Cell, row: nat, col: nat, i: nat, j: nat)
  {
    c.row < row
    || (c.row == row && (c.col < col || (c.col == col && (c.i < i || (c.i == i && c.j < j)))))
  }

  /** Pixel k once the loops have reached cell (row, col) and block position (i, j). */
  function PartlyDrawnPixel(atlas: seq<uint8>, s: Surface, g: GlyphDraw, before: seq<uint32>, k: nat,
                            row: nat, col: nat, i: nat, j: nat): (partly: uint32)
    requires |atlas| == AtlasSize && k < |before|
  {
    if InFootprint(s, g, k) && Before(CellOf(s, g, k), row, col, i, j) then DrawnPixel(atlas, s, g, before, k)
    else before[k]
  }

  /** One step of the innermost loop: the destination of (row, col, i, j), if the
      per-pixel clip lets it through, is the only pixel whose expected value changes,
      and it changes from its old value to its blend. */
  lemma Advance(atlas: seq<uint8>, s: Surface, g: GlyphDraw, before: seq<uint32>,
                row: nat, col: nat, i: nat, j: nat)
    requires |atlas| == AtlasSize && |before| == s.width * s.height
    requires row < GlyphHeight && col < GlyphWidth && i < g.scale && j < g.scale
    ensures var px, py := g.x + col * g.scale + j, g.y + row * g.scale + i;
      var inside := 0 <= py * s.width < s.height * s.width && 0 <= px < s.width;
      var k0 := py * s.width + px;
      (inside ==>
        0 <= k0 < |before|
        && PartlyDrawnPixel(atlas, s, g, before, k0, row, col, i, j) == before[k0]
        && PartlyDrawnPixel(atlas, s, g, before, k0, row, col, i, j + 1)
           == BlendPixel(before[k0], g.color, atlas[AtlasIndex(g.character, row, col)], s.offsets))
      && forall k | 0 <= k < |before| && (!inside || k != k0) ::
           PartlyDrawnPixel(atlas, s, g, before, k, row, col, i, j + 1)
           == PartlyDrawnPixel(atlas, s, g, before, k, row, col, i, j)
  {
    var px, py := g.x + col * g.scale + j, g.y + row * g.scale + i;
    var inside := 0 <= py * s.width < s.height * s.width && 0 <= px < s.width;
    var k0 := py * s.width + px;
    if inside {
      RowMajorIndex(s.width, s.height, py, px);
      DestinationCell(s, g, row, col, i, j);
    }
    forall k | 0 <= k < |before| && (!inside || k != k0)
      ensures PartlyDrawnPixel(atlas, s, g, before, k, row, col, i, j + 1)
           == PartlyDrawnPixel(atlas, s, g, before, k, row, col, i, j)
    {
      OtherCell(s, g, k, row, col, i, j);
    }
  }

  /** A buffer pixel other than the in-buffer destination of (row, col, i, j) is not
      painted from that cell and block position. */
  lemma OtherCell(s: Surface, g: GlyphDraw, k: nat, row: nat, col: nat, i: nat, j: nat)
    requires k < s.width * s.height
    requires var px, py := g.x + col * g.scale + j, g.y + row * g.scale + i;
      !(0 <= py * s.width < s.height * s.width && 0 <= px < s.width) || k != py * s.width + px
    ensures InFootprint(s, g, k) ==> CellOf(s, g, k) != Cell(row, col, i, j)
  {
    if InFootprint(s, g, k) && CellOf(s, g, k) == Cell(row, col, i, j) {
      RowOf(k, s.width, s.height);
      assert false;
    }
  }

  /** Finishing a line of a cell's block is starting the next line of the block. */
  lemma BlockLineFinished(atlas: seq<uint8>, s: Surface, g: GlyphDraw, before: seq<uint32>,
                          row: nat, col: nat, i: nat)
    requires |atlas| == AtlasSize
    ensures forall k | 0 <= k < |before| ::
      PartlyDrawnPixel(atlas, s, g, before, k, row, col, i, g.scale)
      == PartlyDrawnPixel(atlas, s, g, before, k, row, col, i + 1, 0)
  {
  }

  /** Finishing the last line of a cell's block is starting the next cell. */
  lemma BlockFinished(atlas: seq<uint8>, s: Surface, g: GlyphDraw, before: seq<uint32>,
                      row: nat, col: nat)
    requires |atlas| == AtlasSize
    ensures forall k | 0 <= k < |before| ::
      PartlyDrawnPixel(atlas, s, g, before, k, row, col, g.scale, 0)
      == PartlyDrawnPixel(atlas, s, g, before, k, row, col + 1, 0, 0)
  {
  }

  /** Finishing the last column of a glyph row is starting the next row. */
  lemma RowFinished(atlas: seq<uint8>, s: Surface, g: GlyphDraw, before: seq<uint32>, row: nat)
    requires |atlas| == AtlasSize
    ensures forall k | 0 <= k < |before| ::
      PartlyDrawnPixel(atlas, s, g, before, k, row, GlyphWidth, 0, 0)
      == PartlyDrawnPixel(atlas, s, g, before, k, row + 1, 0, 0, 0)
  {
  }

  /** Once every glyph row is finished the buffer is the drawn one. */
  lemma GlyphFinished(atlas: seq<uint8>, s: Surface, g: GlyphDraw, before: seq<uint32>)
    requires |atlas| == AtlasSize
    ensures forall k | 0 <= k < |before| ::
      PartlyDrawnPixel(atlas, s, g, before, k, GlyphHeight, 0, 0, 0) == Drawn(atlas, s, g, before)[k]
  {
  }

  /** The loops of graphics_draw_char after its checks have passed: for each glyph
      row and column, read the coverage byte and blend the cell's scaled block. */
  method CompositeGlyph(buffer: array<uint32>, atlas: seq<uint8>, s: Surface, g: GlyphDraw)
    requires |atlas| == AtlasSize && buffer.Length == s.width * s.height
    modifies buffer
    ensures buffer[..] == Drawn(atlas, s, g, old(buffer[..]))
  {
    ghost var before := buffer[..];
    var screenWidth := s.width;
    var bitmapXOffset := GlyphIndex(g.character) * GlyphWidth;
    var bitmapXMax := bitmapXOffset + GlyphWidth;
    var screenY := g.y * screenWidth;
    var screenX := g.x;
    var bitmapY := 0;
    ghost var row := 0;
    while bitmapY < AtlasWidth * GlyphHeight
      invariant row <= GlyphHeight && bitmapY == row * AtlasWidth
      invariant screenY == (g.y + row * g.scale) * screenWidth && screenX == g.x
      invariant forall k | 0 <= k < buffer.Length ::
        buffer[k] == PartlyDrawnPixel(atlas, s, g, before, k, row, 0, 0, 0)
    {
      var bitmapX := bitmapXOffset;
      ghost var col := 0;
      while bitmapX < bitmapXMax
        invariant col <= GlyphWidth && bitmapX == bitmapXOffset + col
        invariant screenX == g.x + col * g.scale
        invariant forall k | 0 <= k < buffer.Length ::
          buffer[k] == PartlyDrawnPixel(atlas, s, g, before, k, row, col, 0, 0)
      {
        assert bitmapY + bitmapX == AtlasIndex(g.character, row, col);
        var bitmapValue := atlas[bitmapY + bitmapX];
        BlendBlock(buffer, atlas, s, g, bitmapValue, screenX, screenY, before, row, col);
        assert screenX + g.scale == g.x + (col + 1) * g.scale;
        screenX := screenX + g.scale;
        bitmapX := bitmapX + 1;
        col := col + 1;
      }
      RowFinished(atlas, s, g, before, row);
      assert screenY + screenWidth * g.scale == (g.y + (row + 1) * g.scale) * screenWidth;
      screenY := screenY + screenWidth * g.scale;
      screenX := g.x;
      bitmapY := bitmapY + AtlasWidth;
      row := row + 1;
    }
    GlyphFinished(atlas, s, g, before);
    assert forall k | 0 <= k < buffer.Length :: buffer[k] == Drawn(atlas, s, g, before)[k];
  }

  /** The two inner loops of graphics_draw_char: blend coverage `bitmapValue` into the
      scale x scale block whose top-left pixel is column screenX of the row starting at
      flat index screenY, skipping every pixel outside the buffer. */
  method BlendBlock(buffer: array<uint32>, atlas: seq<uint8>, s: Surface, g: GlyphDraw,
                    bitmapValue: uint8, screenX: int, screenY: int,
                    ghost before: seq<uint32>, ghost row: nat, ghost col: nat)
    requires |atlas| == AtlasSize && buffer.Length == s.width * s.height && |before| == buffer.Length
    requires row < GlyphHeight && col < GlyphWidth
    requires bitmapValue == atlas[AtlasIndex(g.character, row, col)]
    requires screenX == g.x + col * g.scale && screenY == (g.y + row * g.scale) * s.width
    requires forall k | 0 <= k < buffer.Length ::
      buffer[k] == PartlyDrawnPixel(atlas, s, g, before, k, row, col, 0, 0)
    modifies buffer
    ensures forall k | 0 <= k < buffer.Length ::
      buffer[k] == PartlyDrawnPixel(atlas, s, g, before, k, row, col + 1, 0, 0)
  {
    var screenWidth := s.width;
    var screenResolution := s.height * s.width;
    var scaledY := screenY;
    var i := 0;
    while i < g.scale
      invariant i <= g.scale && scaledY == (g.y + row * g.scale + i) * screenWidth
      invariant forall k | 0 <= k < buffer.Length ::
        buffer[k] == PartlyDrawnPixel(atlas, s, g, before, k, row, col, i, 0)
    {
      var scaledX := screenX;
      var j := 0;
      while j < g.scale
        invariant j <= g.scale && scaledX == g.x + col * g.scale + j
        invariant forall k | 0 <= k < buffer.Length ::
          buffer[k] == PartlyDrawnPixel(atlas, s, g, before, k, row, col, i, j)
      {
        Advance(atlas, s, g, before, row, col, i, j);
        if scaledY >= 0 && scaledY < screenResolution && scaledX >= 0 && scaledX < screenWidth {
          var pixel := buffer[scaledY + scaledX];
          buffer[scaledY + scaledX] := BlendPixel(pixel, g.color, bitmapValue, s.offsets);
        }
        scaledX := scaledX + 1;
        j := j + 1;
      }
      BlockLineFinished(atlas, s, g, before, row, col, i);
      assert scaledY + screenWidth == (g.y + row * g.scale + (i + 1)) * screenWidth;
      scaledY := scaledY + screenWidth;
      i := i + 1;
    }
    BlockFinished(atlas, s, g, before, row, col);
  }
}
