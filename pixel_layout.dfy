/** Where the red, green and blue bytes sit inside a packed 32-bit pixel
    (graphics.c: find_pixel_offset and the pixel-format switch of
    graphics_select_resolution), and how a pixel is split into and rebuilt from
    its channel bytes (graphics.c: the shifts and masks of graphics_draw_char). */
module PixelLayout {
  import opened Uefi
  import opened Arith

  /** A channel's bit shift: always a whole number of bytes inside a 32-bit word. */
  type Offset = o: nat | o % 8 == 0 && o <= 24

  /** 2 to the power o, the factor a shift by o bits multiplies or divides by. */
  function ShiftFactor(o: Offset): (f: nat)
    ensures f > 0 && f * 0x100 <= 0x1_0000_0000
  {
    if o == 0 then 1 else if o == 8 then 0x100 else if o == 16 then 0x1_0000 else 0x100_0000
  }

  /** The shift find_pixel_offset derives from a channel mask: eight times the index
      of the highest non-zero byte of the mask, and 0 for a mask below 256. */
  function PixelOffset(mask: uint32): (o: Offset)
    ensures mask < 0x100 ==> o == 0
    ensures mask >= 0x100 ==> 1 <= mask / ShiftFactor(o) < 0x100
  {
    if mask < 0x100 then 0
    else if mask < 0x1_0000 then 8
    else if mask < 0x100_0000 then 16
    else 24
  }

  /** find_pixel_offset: shift the mask right a byte at a time, counting eight per
      shift while something is left. */
  method FindPixelOffset(mask: uint32) returns (offset: Offset)
    ensures offset == PixelOffset(mask)
  {
    offset := 0;
    var m := mask / 0x100;
    while m > 0
      invariant m == mask / (ShiftFactor(offset) * 0x100)
      invariant offset == 0 || mask >= ShiftFactor(offset)
      decreases m
    {
      offset := offset + 8;
      m := m / 0x100;
    }
  }

  /** The mask of a channel that fills exactly the byte at offset o. */
  function LaneMask(o: Offset): (m: uint32)
  {
    0xFF * ShiftFactor(o)
  }

  /** A byte-lane mask gives back its own offset. */
  lemma PixelOffsetOfLaneMask(o: Offset)
    ensures PixelOffset(LaneMask(o)) == o
  {
  }

  /** The red, green and blue shifts recorded for a mode. */
  datatype ChannelOffsets = ChannelOffsets(red: Offset, green: Offset, blue: Offset)

  /** The pixel-format switch of graphics_select_resolution. The two fixed layouts put
      the three channels in three different bytes, and for a bit-mask layout each offset
      is that of the channel's mask. */
  function LayoutOffsets(info: ModeInfo): (offsets: ChannelOffsets)
    ensures !info.pixelFormat.PixelBitMask? ==> Disjoint(offsets)
    ensures info.pixelFormat.PixelBitMask? ==>
      (info.pixelInformation.redMask < 0x100 ==> offsets.red == 0)
      && (info.pixelInformation.greenMask < 0x100 ==> offsets.green == 0)
      && (info.pixelInformation.blueMask < 0x100 ==> offsets.blue == 0)
  {
    match info.pixelFormat
    case PixelBlueGreenRedReserved8BitPerColor => ChannelOffsets(16, 8, 0)
    case PixelBitMask =>
      ChannelOffsets(
        PixelOffset(info.pixelInformation.redMask),
        PixelOffset(info.pixelInformation.greenMask),
        PixelOffset(info.pixelInformation.blueMask))
    case _ => ChannelOffsets(0, 8, 16)
  }

  /** A bit-mask mode whose masks each fill one byte gets exactly those bytes' offsets. */
  lemma BitMaskLayoutOfLaneMasks(info: ModeInfo, red: Offset, green: Offset, blue: Offset)
    requires info.pixelFormat.PixelBitMask?
    requires info.pixelInformation.redMask == LaneMask(red)
    requires info.pixelInformation.greenMask == LaneMask(green)
    requires info.pixelInformation.blueMask == LaneMask(blue)
    ensures LayoutOffsets(info) == ChannelOffsets(red, green, blue)
  {
    PixelOffsetOfLaneMask(red);
    PixelOffsetOfLaneMask(green);
    PixelOffsetOfLaneMask(blue);
  }

  /** The switch as a method, calling find_pixel_offset once per mask as the source does. */
  method ResolveOffsets(info: ModeInfo) returns (offsets: ChannelOffsets)
    ensures offsets == LayoutOffsets(info)
  {
    match info.pixelFormat {
      case PixelBlueGreenRedReserved8BitPerColor =>
        offsets := ChannelOffsets(16, 8, 0);
      case PixelBitMask =>
        var r := FindPixelOffset(info.pixelInformation.redMask);
        var g := FindPixelOffset(info.pixelInformation.greenMask);
        var b := FindPixelOffset(info.pixelInformation.blueMask);
        offsets := ChannelOffsets(r, g, b);
      case _ =>
        offsets := ChannelOffsets(0, 8, 16);
    }
  }

  /** `(p >> o) & 255`. */
  function Channel(p: uint32, o: Offset): (c: uint8)
  {
    (p / ShiftFactor(o)) % 0x100
  }

  /** `(r << ro) + (g << go) + (b << bo)` in UINT32 arithmetic. */
  function Pack(r: uint8, g: uint8, b: uint8, f: ChannelOffsets): (p: uint32)
  {
    (r * ShiftFactor(f.red) + g * ShiftFactor(f.green) + b * ShiftFactor(f.blue)) % 0x1_0000_0000
  }

  /** The three channels occupy three different bytes. */
  predicate Disjoint(f: ChannelOffsets)
  {
    f.red != f.green && f.green != f.blue && f.red != f.blue
  }

  /** The byte of a pixel no channel occupies (reserved byte), for disjoint offsets. */
  function ReservedOffset(f: ChannelOffsets): (o: Offset)
    requires Disjoint(f)
    ensures o != f.red && o != f.green && o != f.blue
  {
    if 0 != f.red && 0 != f.green && 0 != f.blue then 0
    else if 8 != f.red && 8 != f.green && 8 != f.blue then 8
    else if 16 != f.red && 16 != f.green && 16 != f.blue then 16
    else 24
  }

  /** For disjoint offsets, unpacking a packed pixel gives back each channel, and the
      byte left over is zero. */
  lemma PackThenChannel(r: uint8, g: uint8, b: uint8, f: ChannelOffsets)
    requires Disjoint(f)
    ensures Channel(Pack(r, g, b, f), f.red) == r
    ensures Channel(Pack(r, g, b, f), f.green) == g
    ensures Channel(Pack(r, g, b, f), f.blue) == b
    ensures Channel(Pack(r, g, b, f), ReservedOffset(f)) == 0
  {
    PackByLane(r, g, b, f);
    ChannelByLane(LaneByte(r, g, b, f, 0), LaneByte(r, g, b, f, 8),
      LaneByte(r, g, b, f, 16), LaneByte(r, g, b, f, 24), f.red);
    ChannelByLane(LaneByte(r, g, b, f, 0), LaneByte(r, g, b, f, 8),
      LaneByte(r, g, b, f, 16), LaneByte(r, g, b, f, 24), f.green);
    ChannelByLane(LaneByte(r, g, b, f, 0), LaneByte(r, g, b, f, 8),
      LaneByte(r, g, b, f, 16), LaneByte(r, g, b, f, 24), f.blue);
    ChannelByLane(LaneByte(r, g, b, f, 0), LaneByte(r, g, b, f, 8),
      LaneByte(r, g, b, f, 16), LaneByte(r, g, b, f, 24), ReservedOffset(f));
  }

  /** The byte a packed pixel holds at offset l. */
  function LaneByte(r: uint8, g: uint8, b: uint8, f: ChannelOffsets, l: Offset): (byte: uint8)
    requires Disjoint(f)
  {
    if f.red == l then r else if f.green == l then g else if f.blue == l then b else 0
  }

  function ByteAt(b0: uint8, b1: uint8, b2: uint8, b3: uint8, o: Offset): (byte: uint8)
  {
    if o == 0 then b0 else if o == 8 then b1 else if o == 16 then b2 else b3
  }

  lemma PackByLane(r: uint8, g: uint8, b: uint8, f: ChannelOffsets)
    requires Disjoint(f)
    ensures Pack(r, g, b, f) == LaneByte(r, g, b, f, 0) + LaneByte(r, g, b, f, 8) * 0x100
      + LaneByte(r, g, b, f, 16) * 0x1_0000 + LaneByte(r, g, b, f, 24) * 0x100_0000
  {
    TermByLane(r, f.red);
    TermByLane(g, f.green);
    TermByLane(b, f.blue);
    var s := r * ShiftFactor(f.red) + g * ShiftFactor(f.green) + b * ShiftFactor(f.blue);
    assert s == LaneByte(r, g, b, f, 0) + LaneByte(r, g, b, f, 8) * 0x100
      + LaneByte(r, g, b, f, 16) * 0x1_0000 + LaneByte(r, g, b, f, 24) * 0x100_0000;
    DivMod(s, 0x1_0000_0000, 0, s);
  }

  /** c shifted left by o, written byte lane by byte lane. */
  lemma TermByLane(c: uint8, o: Offset)
    ensures c * ShiftFactor(o) == (if o == 0 then c else 0) + (if o == 8 then c else 0) * 0x100
      + (if o == 16 then c else 0) * 0x1_0000 + (if o == 24 then c else 0) * 0x100_0000
  {
  }

  lemma ChannelByLane(b0: uint8, b1: uint8, b2: uint8, b3: uint8, o: Offset)
    ensures Channel(b0 + b1 * 0x100 + b2 * 0x1_0000 + b3 * 0x100_0000, o) == ByteAt(b0, b1, b2, b3, o)
  {
    var p := b0 + b1 * 0x100 + b2 * 0x1_0000 + b3 * 0x100_0000;
    if o == 0 {
      DivMod(p, 0x100, b1 + b2 * 0x100 + b3 * 0x1_0000, b0);
    } else if o == 8 {
      DivMod(p, 0x100, b1 + b2 * 0x100 + b3 * 0x1_0000, b0);
      DivMod(p / 0x100, 0x100, b2 + b3 * 0x100, b1);
    } else if o == 16 {
      DivMod(p, 0x1_0000, b2 + b3 * 0x100, b0 + b1 * 0x100);
      DivMod(p / 0x1_0000, 0x100, b3, b2);
    } else {
      DivMod(p, 0x100_0000, b3, b0 + b1 * 0x100 + b2 * 0x1_0000);
      DivMod(p / 0x100_0000, 0x100, 0, b3);
    }
  }

  /** A 32-bit value is the sum of its four bytes. */
  lemma PixelByLane(p: uint32)
    ensures p == Channel(p, 0) + Channel(p, 8) * 0x100 + Channel(p, 16) * 0x1_0000
      + Channel(p, 24) * 0x100_0000
  {
    DivMod(p, 0x100, p / 0x100, p % 0x100);
    DivMod(p / 0x100, 0x100, p / 0x1_0000, (p / 0x100) % 0x100);
    DivMod(p / 0x1_0000, 0x100, p / 0x100_0000, (p / 0x1_0000) % 0x100);
  }

  /** Packing three of a word's four bytes back into their places rebuilds the word
      without its fourth byte. */
  lemma PackOfBytes(b0: uint8, b1: uint8, b2: uint8, b3: uint8, f: ChannelOffsets)
    requires Disjoint(f)
    ensures var z := ReservedOffset(f);
      Pack(ByteAt(b0, b1, b2, b3, f.red), ByteAt(b0, b1, b2, b3, f.green), ByteAt(b0, b1, b2, b3, f.blue), f)
      == b0 + b1 * 0x100 + b2 * 0x1_0000 + b3 * 0x100_0000 - ByteAt(b0, b1, b2, b3, z) * ShiftFactor(z)
  {
    var r, g, b := ByteAt(b0, b1, b2, b3, f.red), ByteAt(b0, b1, b2, b3, f.green), ByteAt(b0, b1, b2, b3, f.blue);
    PackByLane(r, g, b, f);
    var z := ReservedOffset(f);
    assert LaneByte(r, g, b, f, z) == 0;
    if z == 0 {
      assert LaneByte(r, g, b, f, 8) == b1 && LaneByte(r, g, b, f, 16) == b2 && LaneByte(r, g, b, f, 24) == b3;
    } else if z == 8 {
      assert LaneByte(r, g, b, f, 0) == b0 && LaneByte(r, g, b, f, 16) == b2 && LaneByte(r, g, b, f, 24) == b3;
    } else if z == 16 {
      assert LaneByte(r, g, b, f, 0) == b0 && LaneByte(r, g, b, f, 8) == b1 && LaneByte(r, g, b, f, 24) == b3;
    } else {
      assert LaneByte(r, g, b, f, 0) == b0 && LaneByte(r, g, b, f, 8) == b1 && LaneByte(r, g, b, f, 16) == b2;
    }
  }
}
