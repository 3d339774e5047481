/** The GraphicsOutput record of graphics.c and the functions over it: mode selection,
    the backbuffer's allocation and release, the solid fill, the Blt request and the
    glyph drawing. Each of these takes a pointer to the record in the source, so each
    is a method over `GraphicsOutput?` that keeps the source's NULL checks. */
module Graphics {
  import opened Uefi
  import opened Arith
  import opened PixelLayout
  import opened ModeSelection
  import opened Fill
  import opened Glyphs

  /** The record graphics_select_resolution returns and the other functions update. */
  class GraphicsOutput {
    var protocol: Option<Protocol>
    var width: uint32
    var height: uint32
    var redOffset: Offset
    var greenOffset: Offset
    var blueOffset: Offset
    var backbuffer: array?<uint32>

    /** A record whose protocol is set and whose backbuffer is not yet allocated; the
        other fields are not specified. */
    constructor (protocol: Option<Protocol>)
      ensures this.protocol == protocol && backbuffer == null
    {
      this.protocol := protocol;
      backbuffer := null;
    }

    /** An allocated backbuffer holds exactly width*height pixels, and its size in
        bytes is a UINT32. */
    predicate Valid()
      reads this
    {
      backbuffer != null ==> backbuffer.Length == width * height && width * height * 4 < 0x1_0000_0000
    }

    /** What graphics_draw_char reads of the record. */
    function Surface(): Glyphs.Surface
      reads this
    {
      Glyphs.Surface(width, height, ChannelOffsets(redOffset, greenOffset, blueOffset))
    }
  }

  /** The resolution graphics_select_resolution compares for each mode:
      PixelsPerScanLine * VerticalResolution in UINT32 arithmetic. */
  function ScanlineKeys(modes: seq<ModeInfo>): (keys: seq<int>)
  {
    seq(|modes|, i requires 0 <= i < |modes| => Mul32(modes[i].pixelsPerScanLine, modes[i].verticalResolution))
  }

  /** graphics_select_resolution: with a protocol, query every mode, record the size and
      channel offsets of the first mode of greatest resolution, and ask SetMode for that
      mode (mode 0 when no resolution is positive). Without a protocol nothing is queried
      and SetMode is not called. */
  method SelectResolution(protocol: Option<Protocol>) returns (output: GraphicsOutput, setMode: Option<nat>)
    requires protocol.Some? ==> |protocol.value.modes| < 0x1_0000_0000
    ensures fresh(output) && output.protocol == protocol && output.backbuffer == null
    ensures protocol.None? ==> setMode.None?
    ensures protocol.Some? ==> setMode == Some(AppliedMode(ScanlineKeys(protocol.value.modes)))
    ensures protocol.Some? && BestMode(ScanlineKeys(protocol.value.modes)).Some? ==>
      var info := protocol.value.modes[BestMode(ScanlineKeys(protocol.value.modes)).value];
      output.width == info.pixelsPerScanLine && output.height == info.verticalResolution
      && ChannelOffsets(output.redOffset, output.greenOffset, output.blueOffset) == LayoutOffsets(info)
  {
    output := new GraphicsOutput(protocol);
    if protocol.None? {
      return output, None;
    }
    var modes := protocol.value.modes;
    ghost var keys := ScanlineKeys(modes);
    var modeCount := |modes|;
    var maxResMode: nat := 0;
    var maxResolution: uint32 := 0;
    var mode := 0;
    while mode < modeCount
      invariant mode <= modeCount && output.protocol == protocol && output.backbuffer == null
      invariant maxResolution == KeptResolution(keys[..mode], BestMode(keys[..mode]))
      invariant maxResMode == AppliedMode(keys[..mode])
      invariant BestMode(keys[..mode]).Some? ==>
        var info := modes[BestMode(keys[..mode]).value];
        output.width == info.pixelsPerScanLine && output.height == info.verticalResolution
        && ChannelOffsets(output.redOffset, output.greenOffset, output.blueOffset) == LayoutOffsets(info)
    {
      var info := modes[mode];
      var resolution := Mul32(info.pixelsPerScanLine, info.verticalResolution);
      BestModeStep(keys, mode);
      if resolution > maxResolution {
        output.width := info.pixelsPerScanLine;
        output.height := info.verticalResolution;
        var offsets := ResolveOffsets(info);
        output.redOffset, output.greenOffset, output.blueOffset := offsets.red, offsets.green, offsets.blue;
        maxResMode := mode;
        maxResolution := resolution;
      }
      mode := mode + 1;
    }
    assert keys[..modeCount] == keys;
    setMode := Some(maxResMode);
  }

  /** graphics_allocate_backbuffer: without a record the answer is EFI_INVALID_PARAMETER
      and no pool request is made; otherwise AllocatePool is asked for width*height*4
      bytes, and on success the backbuffer is a fresh buffer of width*height pixels
      whose contents are not specified. `poolHasRoom` stands for the firmware's answer. */
  method AllocateBackbuffer(output: GraphicsOutput?, poolHasRoom: bool) returns (status: Status, requested: Option<nat>)
    requires output != null ==> output.width * output.height * 4 < 0x1_0000_0000
    modifies output
    ensures output == null ==> status == InvalidParameter && requested.None?
    ensures output != null ==>
      requested == Some(output.width * output.height * 4)
      && status == (if poolHasRoom then Success else OutOfResources)
      && output.protocol == old(output.protocol)
      && output.width == old(output.width) && output.height == old(output.height)
      && output.redOffset == old(output.redOffset) && output.greenOffset == old(output.greenOffset)
      && output.blueOffset == old(output.blueOffset)
      && (poolHasRoom ==> fresh(output.backbuffer) && output.Valid())
      && (!poolHasRoom ==> output.backbuffer == old(output.backbuffer))
  {
    if output == null {
      return InvalidParameter, None;
    }
    var size := Mul32(Mul32(output.width, output.height), 4);
    requested := Some(size);
    if poolHasRoom {
      output.backbuffer := new uint32[size / 4];
      status := Success;
    } else {
      status := OutOfResources;
    }
  }

  /** graphics_free_backbuffer: the buffer handed to FreePool, if any. The record keeps
      its pointer afterwards. */
  method FreeBackbuffer(output: GraphicsOutput?) returns (freed: Option<array<uint32>>)
    ensures output == null || output.backbuffer == null ==> freed.None?
    ensures output != null && output.backbuffer != null ==> freed == Some(output.backbuffer)
  {
    if output == null || output.backbuffer == null {
      return None;
    }
    freed := Some(output.backbuffer);
  }

  /** graphics_fill_solid_color: every pixel of an allocated backbuffer holds `color`. */
  method FillSolidColor(output: GraphicsOutput?, color: uint32)
    requires output != null ==> output.Valid()
    modifies if output != null && output.backbuffer != null then {output.backbuffer} else {}
    ensures output != null && output.backbuffer != null ==>
      forall k | 0 <= k < output.backbuffer.Length :: output.backbuffer[k] == color
  {
    if output == null || output.backbuffer == null {
      return;
    }
    FillRegion(output.backbuffer, output.width, output.height, color);
  }

  /** graphics_blt: with a protocol and a backbuffer, the request to copy the whole
      backbuffer to the screen; otherwise no request. */
  method Blt(output: GraphicsOutput?) returns (request: Option<BltRequest>)
    ensures output == null || output.protocol.None? || output.backbuffer == null ==> request.None?
    ensures output != null && output.protocol.Some? && output.backbuffer != null ==>
      request == Some(BltRequest(output.backbuffer[..], output.width, output.height))
  {
    if output == null || output.protocol.None? || output.backbuffer == null {
      return None;
    }
    request := Some(BltRequest(output.backbuffer[..], output.width, output.height));
  }

  /** graphics_draw_char: without a record, protocol or backbuffer, or when the
      placement check turns the glyph away, nothing changes; otherwise the backbuffer
      becomes the glyph drawn over its old contents. The size bound on the surface is
      the range in which the INT32 screen offsets of the source do not wrap. */
  method DrawChar(output: GraphicsOutput?, atlas: seq<uint8>, character: uint8, color: uint32,
                  x: int32, y: int32, scale: uint8)
    requires |atlas| == AtlasSize
    requires output != null ==>
      output.Valid() && output.width * (output.height + GlyphHeight * 255) < 0x8000_0000
    modifies if output != null && output.backbuffer != null then {output.backbuffer} else {}
    ensures output != null && output.backbuffer != null ==>
      var g := GlyphDraw(character, color, x, y, scale);
      output.backbuffer[..] == if output.protocol.Some? && PlacementAccepted(output.Surface(), g)
        then Drawn(atlas, output.Surface(), g, old(output.backbuffer[..]))
        else old(output.backbuffer[..])
  {
    if output == null || output.protocol.None? || output.backbuffer == null {
      return;
    }
    if (x + GlyphWidth) % 0x1_0000_0000 >= output.width || (y + GlyphHeight) % 0x1_0000_0000 >= output.height {
      return;
    }
    CompositeGlyph(output.backbuffer, atlas, output.Surface(), GlyphDraw(character, color, x, y, scale));
  }

  /** The mode graphics_select_resolution keeps is the first of greatest resolution, and
      a mode is kept exactly when some resolution is positive. */
  lemma SelectedModeIsFirstMaximum(modes: seq<ModeInfo>)
    ensures BestMode(ScanlineKeys(modes)).None? <==>
      forall i | 0 <= i < |modes| :: Mul32(modes[i].pixelsPerScanLine, modes[i].verticalResolution) == 0
    ensures BestMode(ScanlineKeys(modes)).Some? ==>
      var k := BestMode(ScanlineKeys(modes)).value;
      k < |modes|
      && (forall i | 0 <= i < |modes| ::
            Mul32(modes[i].pixelsPerScanLine, modes[i].verticalResolution)
            <= Mul32(modes[k].pixelsPerScanLine, modes[k].verticalResolution))
      && (forall i | 0 <= i < k ::
            Mul32(modes[i].pixelsPerScanLine, modes[i].verticalResolution)
            < Mul32(modes[k].pixelsPerScanLine, modes[k].verticalResolution))
  {
    var keys := ScanlineKeys(modes);
    assert |keys| == |modes|;
    assert forall i | 0 <= i < |modes| :: keys[i] == Mul32(modes[i].pixelsPerScanLine, modes[i].verticalResolution);
    BestModeIsFirstMaximum(keys);
  }
}
