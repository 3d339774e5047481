# Framebuffer model of beef's UEFI graphics code

This project models the framebuffer pipeline of the beef UEFI application in Dafny and
proves properties of it. The pipeline is written twice:

- `graphics.c` holds the `GraphicsOutput` record and these functions:
  - finding each channel's byte shift from its bit mask (`find_pixel_offset`);
  - choosing the display mode with the most pixels and recording its size and channel
    layout (`graphics_select_resolution`);
  - allocating and freeing the backbuffer;
  - filling the backbuffer with one colour;
  - asking the firmware to copy the backbuffer to the screen (`graphics_blt`);
  - drawing one scaled glyph from an 8x16 coverage atlas, with alpha blending and
    clipping (`graphics_draw_char`).
- `beef.c` is an earlier, smaller program over a global backbuffer. It runs a similar
  mode scan, paints the buffer green, shows it, and frees it. `efi_main` orders these
  steps.

The modules are:

| file | module | models |
|---|---|---|
| `uefi.dfy` | `Uefi` | fixed-width integers, the firmware records read (mode information, pixel formats), the Blt request, UINT32 multiplication |
| `arith.dfy` | `Arith` | facts about multiplication and Euclidean division used by the proofs |
| `pixel_layout.dfy` | `PixelLayout` | `find_pixel_offset`, the pixel-format switch, splitting a pixel into channel bytes and packing it again |
| `mode_selection.dfy` | `ModeSelection` | the "first strict maximum" scan both mode selections perform, stated over the sequence of per-mode resolutions |
| `fill.dfy` | `Fill` | the nested fill loop shared by `graphics_fill_solid_color` and `blt_green` |
| `glyph.dfy` | `Glyphs` | the placement check, the clamped atlas lookup, the per-channel blend, and the scaled, clipped writes of `graphics_draw_char`, proved against a pixel-by-pixel specification (`Drawn`) |
| `graphics.dfy` | `Graphics` | the `GraphicsOutput` record as a class, and each `graphics.c` function as a method over a possibly-null record |
| `beef.dfy` | `Beef` | the global backbuffer as a class, the `beef.c` functions, and `efi_main` as the sequence of firmware calls it makes |

Firmware services are not modelled as code. What a service answers is an input:

- the list of modes `QueryMode` reports;
- whether `AllocatePool` succeeds.

What a service is asked to do is an output:

- the mode number passed to `SetMode`;
- the byte count passed to `AllocatePool`;
- the buffer passed to `FreePool`;
- the pixels and rectangle passed to `Blt`.

The glyph atlas (`ascii_bitmap`, defined in a file that is not part of this model) is a
parameter: a sequence of 1792 * 16 coverage bytes.

Unsigned C integers are Dafny integers restricted to their range (`uint8`, `uint32`,
`int32`). Where the C code wraps around, the model says so explicitly:

- the UINT32 product of a mode's dimensions is `Mul32`;
- the unsigned comparison of the placement check reduces modulo 2^32.

A shift by a channel offset is a multiplication or division by 2^offset.

## Behaviour of the code worth knowing

- The recorded width is `PixelsPerScanLine` (`graphics.c:49`), not the visible
  width. The backbuffer therefore has no separate row stride. `beef.c` records
  `HorizontalResolution` instead.
- The placement check uses `>=` (`graphics.c:113`). A glyph whose unscaled box ends
  exactly on the last column or row is turned away (`Glyphs.FlushRightGlyphRejected`).
- The check compares through UINT32, so x in [-8, -1] and y in [-16, -1] pass it
  (`Glyphs.PlacementAcceptedExactly`).
- Zero coverage is not a no-op. The three channels keep their values, but the pixel
  is rebuilt from them alone, so its fourth (reserved) byte becomes 0
  (`Glyphs.BlendPixelZeroCoverage`, `Glyphs.ZeroCoverageClearsReservedByte`).
- Full coverage does not always reach the target colour. When the old channel is
  below the target, the `>> 8` leaves it one short (`Glyphs.BlendChannel`).
- The atlas is 1792 coverage bytes wide, which is 224 glyphs of 8 columns. So every
  code 32..255 has its own glyph, and codes below 32 draw the glyph of 32
  (`graphics.c:115-116`, `graphics.c:132`).

## Model

| member | source | states |
|---|---|---|
| Uefi.Mul32 | graphics.c:47 | the UINT32 product (the true product reduced modulo 2^32) equals the true product whenever that fits in 32 bits |
| PixelLayout.PixelOffset | graphics.c:25-33 | the shift is 0 for a mask below 256; otherwise the mask shifted right by it is a nonzero byte, so it is 8 times the index of the highest nonzero byte; always a multiple of 8 and at most 24 |
| PixelLayout.FindPixelOffset | graphics.c:25-33 | the shift-and-count loop returns PixelOffset of the mask |
| PixelLayout.PixelOffsetOfLaneMask | graphics.c:25-33 | a mask filling exactly the byte at offset o (0xFF, 0xFF00, 0xFF0000, 0xFF000000) gives back o |
| PixelLayout.LayoutOffsets | graphics.c:51-68 | the two fixed layouts (BGR and the default) put red, green and blue in three different bytes; in a bit-mask layout a channel whose mask is below 256 gets offset 0 |
| PixelLayout.BitMaskLayoutOfLaneMasks | graphics.c:58-62 | a bit-mask mode whose masks each fill exactly one byte gets those bytes' offsets as its red, green and blue offsets |
| PixelLayout.ResolveOffsets | graphics.c:51-68 | BGR format gives red/green/blue = 16/8/0; bit-mask format takes each offset from its mask via find_pixel_offset; every other format gives 0/8/16 |
| PixelLayout.ReservedOffset | graphics.c:144 | for three distinct channel offsets, it names the one byte of the pixel no channel occupies |
| PixelLayout.PixelByLane | graphics.c:122-124 | Channel, which is `(p >> o) & 255`, splits a pixel into four bytes that rebuild it: p is the sum of Channel(p, o) * 2^o over o = 0, 8, 16, 24 |
| PixelLayout.PackByLane | graphics.c:144 | for distinct offsets, Pack (`(r << ro) + (g << go) + (b << bo)` in UINT32) puts each channel value in the byte at its offset and 0 in the fourth byte |
| PixelLayout.PackThenChannel | graphics.c:122-144 | for distinct offsets, reading back channel o of a packed pixel gives the value packed at o, and the reserved byte is 0 |
| ModeSelection.BestMode | graphics.c:43-73 | the kept mode, if any, is a valid mode index whose resolution is positive |
| ModeSelection.BestModeIsFirstMaximum | graphics.c:45-73 | no mode is kept exactly when no resolution is positive; a kept mode has the greatest resolution and every earlier mode has a strictly smaller one |
| ModeSelection.AppliedMode | graphics.c:74 | the mode number handed to SetMode is a valid mode number whenever there is a mode, and it is nonzero only when that mode's resolution is positive |
| ModeSelection.TiesKeepEarlier | graphics.c:48 | of two modes with equal resolution the later one is never kept |
| Graphics.GraphicsOutput.constructor | graphics.c:37-38 | the new record holds the protocol it was given and no backbuffer |
| Graphics.SelectResolution | graphics.c:36-76 | without a protocol, SetMode is not called; with one, SetMode is asked for the kept mode (or 0), and the recorded width, height and channel offsets all come from that kept mode; the backbuffer is not yet allocated |
| Graphics.SelectedModeIsFirstMaximum | graphics.c:43-74 | the scan keeps a mode exactly when some PixelsPerScanLine * VerticalResolution is nonzero, and what it keeps is the lowest-numbered mode of greatest product |
| Graphics.AllocateBackbuffer | graphics.c:79-84 | a null record gives EFI_INVALID_PARAMETER and no request; otherwise width*height*4 bytes are requested, the status is the pool's answer, and on success the backbuffer is fresh and holds width*height pixels, with no other field changed |
| Graphics.FreeBackbuffer | graphics.c:87-90 | FreePool gets the backbuffer exactly when the record and its backbuffer are non-null |
| Fill.FillRegion | graphics.c:95-100 | every index below width*height holds the colour and every later index keeps its old value |
| Graphics.FillSolidColor | graphics.c:93-101 | with a record and a backbuffer, every pixel of the width*height backbuffer holds the colour; otherwise nothing may be modified |
| Graphics.Blt | graphics.c:104-108 | a Blt of the whole backbuffer at width x height is requested exactly when the record, its protocol and its backbuffer are all non-null |
| Glyphs.GlyphIndex | graphics.c:115-116 | the clamped glyph number keeps the glyph's 8 columns inside the 1792-wide atlas |
| Glyphs.AtlasIndex | graphics.c:128-134 | the coverage byte read for glyph row `row` and column `col` lies in the 1792*16 atlas, in scanline `row`, at column (character-32)*8 + col |
| Glyphs.ControlCharactersDrawSpace | graphics.c:115 | a character below 32 reads the same coverage bytes as the space character |
| Glyphs.BlendChannel | graphics.c:141-143 | the blended channel lies between the old value and the target; coverage 0 keeps the old value; coverage 255 gives the target, or one less when the old value is below it |
| Glyphs.BlendPixelChannels | graphics.c:140-144 | for distinct offsets, each channel of BlendPixel, the pixel written back, is the blend of that channel of the old pixel, and the reserved byte is 0 |
| Glyphs.BlendPixelZeroCoverage | graphics.c:141-144 | with coverage 0 the written pixel is the old pixel minus its reserved byte, so it is unchanged exactly when that byte was 0 |
| Glyphs.ZeroCoverageClearsReservedByte | graphics.c:144 | for the BGR layout, the pixel 0xFF000000 under coverage 0 is written as 0, whatever the colour |
| Glyphs.PlacementAcceptedExactly | graphics.c:113 | on a surface of at most 2^31 columns and rows, PlacementAccepted (the check, with both sums compared as UINT32) passes exactly when -8 <= x, x+8 < width, -16 <= y and y+16 < height |
| Glyphs.FlushRightGlyphRejected | graphics.c:113 | a glyph whose unscaled box ends on the right edge (x + 8 == width) is turned away |
| Glyphs.CellOf | graphics.c:132-152 | a pixel inside the scaled glyph box comes from exactly one glyph cell (row < 16, col < 8) and block position (i, j < scale), with column x + col*scale + j and row y + row*scale + i |
| Glyphs.DestinationCell | graphics.c:130-152 | each in-buffer destination of cell (row, col) at block position (i, j) is a pixel of the glyph box whose cell is that very cell |
| Glyphs.DrawnAtDestination | graphics.c:136-145 | each in-buffer destination of a glyph cell ends up as the blend of its own old value with that cell's coverage |
| Glyphs.ChangedOnlyAtDestinations | graphics.c:139 | a pixel that changes lies inside the glyph box, and it is the in-buffer destination (column in [0, width), row in [0, height)) of its cell |
| Glyphs.ZeroScaleDrawsNothing | graphics.c:136 | scale 0 leaves the whole buffer unchanged |
| Glyphs.BlankGlyphKeepsChannels | graphics.c:141-144 | over an all-zero glyph, pixels outside the box are unchanged, and pixels inside keep their channels and lose only their reserved byte |
| Glyphs.ScaledBlockUniform | graphics.c:136-149 | two destinations of the same cell that start with equal values end with equal values |
| Glyphs.CompositeGlyph | graphics.c:118-154 | the nested row/column loops leave the buffer equal to Drawn: the glyph composited over the old contents |
| Glyphs.BlendBlock | graphics.c:135-149 | the two inner loops paint the scale x scale block of one glyph cell, pixel by pixel, skipping pixels outside the buffer |
| Graphics.DrawChar | graphics.c:111-155 | with a record and a backbuffer: when there is a protocol and the placement check passes, the backbuffer becomes the glyph drawn over its old contents; when the protocol is absent or the check fails, it stays unchanged |
| Beef.Backbuffer.constructor | beef.c:5-9 | the global record starts zeroed: no size and no pixels |
| Beef.VisibleModeIsFirstMaximum | beef.c:26-35 | the scan keeps a mode exactly when some HorizontalResolution * VerticalResolution (in UINT32) is nonzero, and what it keeps is the lowest-numbered mode of greatest product |
| Beef.NoPositiveResolutionKeepsSize | beef.c:24-36 | when no mode has a positive resolution the record keeps its size and SetMode is asked for mode 0 |
| Beef.SelectGraphicsMode | beef.c:20-37 | SetMode is asked for the first mode of greatest visible resolution (or 0); the record's width and height become that mode's visible size, or stay as they were when no mode is kept; the pixel pointer is unchanged |
| Beef.AllocateBuffer | beef.c:40-44 | width*height*4 bytes are requested; the status is the pool's answer; on success the pixels are a fresh buffer of width*height entries |
| Beef.FreeBuffer | beef.c:47-49 | FreePool gets the record's pixel pointer |
| Beef.BltGreen | beef.c:52-61 | every pixel of the width*height buffer is 0x0000ff00, and a Blt of exactly those pixels at width x height is requested |
| Beef.MainTraceFreesOnceAfterBlt | beef.c:70-73 | in the run efi_main makes, FreePool happens at most once, frees the buffer that was blitted before it, and that buffer is the one AllocatePool handed back; FreePool happens exactly when the allocation succeeded |
| Beef.EfiMain | beef.c:64-75 | efi_main returns EFI_SUCCESS after SetMode and AllocatePool; if the allocation succeeded, the buffer the pool handed back (of the chosen mode's size) is blitted all green and then freed once; if it failed, nothing more happens |

## Left out

- `graphics_get_protocol` and `get_graphics` (`LocateProtocol`): the located protocol is an input, absent or present.
- `QueryMode`: a protocol is the list of mode records it would report; `MaxMode` is the length of that list.
- `SetMode`, `AllocatePool`, `FreePool` and `Blt`: they are foreign firmware services. Only their arguments are recorded, and the answer of `AllocatePool` is a boolean input. No failure status other than `EFI_OUT_OF_RESOURCES` is modelled.
- `InitializeLib`, `uefi_call_wrapper` and the `EFIAPI` entry arguments: these are platform glue with no logic of their own.
- The contents of `ascii_bitmap`: its file is not part of this model, so the atlas is a parameter of the right size.
- The contents of a freshly allocated pool buffer are not specified by any contract.
- Graphics.GraphicsOutput.constructor: the C record's width, height, offsets and backbuffer are uninitialised until assigned. The model says nothing about the first three and starts the backbuffer as null. The offsets are always of type `Offset` (0, 8, 16 or 24), whereas uninitialised C offsets could hold any byte.
- Graphics.SelectResolution: when no mode has a positive resolution, or there is no protocol, the width, height and offsets are left unspecified, as the C code leaves them uninitialised.
- Graphics.AllocateBackbuffer: requires width*height*4 to fit in 32 bits. The UINT32 wrap of the size computation is not modelled beyond that bound.
- Beef.AllocateBuffer: requires width*height*4 to fit in 32 bits, for the same reason.
- Fill.FillRegion: requires width*height to fit in 32 bits, so the UINT32 loop counters never wrap.
- Graphics.DrawChar: requires width * (height + 16*255) < 2^31. Within this bound none of the INT32 screen offsets (`screen_y`, `scaled_y`) wraps, so the model's unbounded arithmetic agrees with the C code. Surfaces beyond the bound are not modelled.
- Graphics.FreeBackbuffer: the record keeps its now-dangling pointer, as in C. A later use or second free of that pointer is not detected.
- Beef.EfiMain: `beef.c` dereferences the located protocol without a NULL check, so the model takes a protocol that is present. It also requires every mode's width*height*4 to fit in 32 bits.
- PixelLayout.PackThenChannel: the round trip and the reserved-byte facts assume three distinct channel offsets. With bit masks that share a byte, the C sum overlaps. `Pack` models that sum modulo 2^32, but no property of it is proved.
- The loops of `graphics_draw_char` are split into two methods. `Glyphs.CompositeGlyph` holds the row/column loops and `Glyphs.BlendBlock` the block loops. The per-pixel arithmetic is the function `Glyphs.BlendPixel`.
