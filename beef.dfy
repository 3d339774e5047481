/** The earlier, single-file program of beef.c: a global backbuffer record, a mode scan
    keyed on the visible width, a green fill followed by a Blt, and efi_main, which
    selects a mode, allocates the buffer and only then fills, shows and frees it. */
module Beef {
  import opened Uefi
  import opened ModeSelection
  import opened Fill

  /** The global `backbuffer` record; as a C global it starts out zeroed. */
  class Backbuffer {
    var width: uint32
    var height: uint32
    var pixels: array?<uint32>

    constructor ()
      ensures width == 0 && height == 0 && pixels == null
    {
      width, height, pixels := 0, 0, null;
    }
  }

  /** The resolution select_graphics_mode compares for each mode:
      HorizontalResolution * VerticalResolution in UINT32 arithmetic. */
  function VisibleKeys(modes: seq<ModeInfo>): (keys: seq<int>)
  {
    seq(|modes|, i requires 0 <= i < |modes| => Mul32(modes[i].horizontalResolution, modes[i].verticalResolution))
  }

  /** The width and height the global record holds after the mode scan, starting from
      `width` and `height`: those of the kept mode, or the old ones when no mode is kept. */
  function ScannedSize(modes: seq<ModeInfo>, width: uint32, height: uint32): (size: (uint32, uint32))
  {
    match BestMode(VisibleKeys(modes))
    case None => (width, height)
    case Some(k) => (modes[k].horizontalResolution, modes[k].verticalResolution)
  }

  /** When no mode has a positive resolution the record keeps its size and SetMode is
      asked for mode 0. */
  lemma NoPositiveResolutionKeepsSize(modes: seq<ModeInfo>, width: uint32, height: uint32)
    requires forall i | 0 <= i < |modes| :: Mul32(modes[i].horizontalResolution, modes[i].verticalResolution) == 0
    ensures ScannedSize(modes, width, height) == (width, height)
    ensures AppliedMode(VisibleKeys(modes)) == 0
  {
    BestModeIsFirstMaximum(VisibleKeys(modes));
  }

  /** The mode select_graphics_mode keeps is the first of greatest visible resolution,
      and a mode is kept exactly when some visible resolution is nonzero. */
  lemma VisibleModeIsFirstMaximum(modes: seq<ModeInfo>)
    ensures BestMode(VisibleKeys(modes)).None? <==>
      forall i | 0 <= i < |modes| :: Mul32(modes[i].horizontalResolution, modes[i].verticalResolution) == 0
    ensures BestMode(VisibleKeys(modes)).Some? ==>
      var k := BestMode(VisibleKeys(modes)).value;
      k < |modes|
      && (forall i | 0 <= i < |modes| ::
            Mul32(modes[i].horizontalResolution, modes[i].verticalResolution)
            <= Mul32(modes[k].horizontalResolution, modes[k].verticalResolution))
      && (forall i | 0 <= i < k ::
            Mul32(modes[i].horizontalResolution, modes[i].verticalResolution)
            < Mul32(modes[k].horizontalResolution, modes[k].verticalResolution))
  {
    var keys := VisibleKeys(modes);
    assert |keys| == |modes|;
    assert forall i | 0 <= i < |modes| :: keys[i] == Mul32(modes[i].horizontalResolution, modes[i].verticalResolution);
    BestModeIsFirstMaximum(keys);
  }

  /** select_graphics_mode: record the visible size of the first mode of greatest
      resolution and return the mode number handed to SetMode. */
  method SelectGraphicsMode(backbuffer: Backbuffer, graphics: Protocol) returns (setMode: nat)
    requires |graphics.modes| < 0x1_0000_0000
    modifies backbuffer
    ensures setMode == AppliedMode(VisibleKeys(graphics.modes))
    ensures (backbuffer.width, backbuffer.height)
      == ScannedSize(graphics.modes, old(backbuffer.width), old(backbuffer.height))
    ensures backbuffer.pixels == old(backbuffer.pixels)
  {
    var modes := graphics.modes;
    ghost var keys := VisibleKeys(modes);
    var modeCount := |modes|;
    var maxResMode: nat := 0;
    var maxResolution: uint32 := 0;
    var mode := 0;
    while mode < modeCount
      invariant mode <= modeCount && backbuffer.pixels == old(backbuffer.pixels)
      invariant maxResolution == KeptResolution(keys[..mode], BestMode(keys[..mode]))
      invariant maxResMode == AppliedMode(keys[..mode])
      invariant BestMode(keys[..mode]).None? ==>
        backbuffer.width == old(backbuffer.width) && backbuffer.height == old(backbuffer.height)
      invariant BestMode(keys[..mode]).Some? ==>
        var info := modes[BestMode(keys[..mode]).value];
        backbuffer.width == info.horizontalResolution && backbuffer.height == info.verticalResolution
    {
      var info := modes[mode];
      var resolution := Mul32(info.horizontalResolution, info.verticalResolution);
      BestModeStep(keys, mode);
      if resolution > maxResolution {
        backbuffer.width := info.horizontalResolution;
        backbuffer.height := info.verticalResolution;
        maxResMode := mode;
        maxResolution := resolution;
      }
      mode := mode + 1;
    }
    assert keys[..modeCount] == keys;
    setMode := maxResMode;
  }

  /** allocate_buffer: ask AllocatePool for width*height*4 bytes; on success `pixels`
      is a fresh buffer of width*height pixels whose contents are not specified.
      `poolHasRoom` stands for the firmware's answer. */
  method AllocateBuffer(backbuffer: Backbuffer, poolHasRoom: bool) returns (status: Status, requested: nat)
    requires backbuffer.width * backbuffer.height * 4 < 0x1_0000_0000
    modifies backbuffer
    ensures requested == backbuffer.width * backbuffer.height * 4
    ensures status == if poolHasRoom then Success else OutOfResources
    ensures backbuffer.width == old(backbuffer.width) && backbuffer.height == old(backbuffer.height)
    ensures poolHasRoom ==>
      fresh(backbuffer.pixels) && backbuffer.pixels.Length == backbuffer.width * backbuffer.height
    ensures !poolHasRoom ==> backbuffer.pixels == old(backbuffer.pixels)
  {
    requested := Mul32(Mul32(backbuffer.width, backbuffer.height), 4);
    if poolHasRoom {
      backbuffer.pixels := new uint32[requested / 4];
      status := Success;
    } else {
      status := OutOfResources;
    }
  }

  /** free_buffer: the pointer handed to FreePool. */
  method FreeBuffer(backbuffer: Backbuffer) returns (freed: array?<uint32>)
    ensures freed == backbuffer.pixels
  {
    freed := backbuffer.pixels;
  }

  /** The colour blt_green paints: green in the byte at offset 8. */
  const Green: uint32 := 0x0000_ff00

  /** blt_green: paint every pixel of the buffer green, then request a Blt of it. */
  method BltGreen(backbuffer: Backbuffer, graphics: Protocol) returns (request: BltRequest)
    requires backbuffer.pixels != null
    requires backbuffer.pixels.Length == backbuffer.width * backbuffer.height
    requires backbuffer.width * backbuffer.height < 0x1_0000_0000
    modifies backbuffer.pixels
    ensures forall k | 0 <= k < backbuffer.pixels.Length :: backbuffer.pixels[k] == Green
    ensures request == BltRequest(backbuffer.pixels[..], backbuffer.width, backbuffer.height)
  {
    FillRegion(backbuffer.pixels, backbuffer.width, backbuffer.height, Green);
    request := BltRequest(backbuffer.pixels[..], backbuffer.width, backbuffer.height);
  }

  /** The firmware services efi_main's program asks for, in order, with the buffer
      pointer each one receives or hands back. */
  datatype FirmwareCall =
    | SetMode(mode: nat)
    | AllocatePool(size: nat, buffer: array?<uint32>)
    | BltCall(buffer: array?<uint32>, request: BltRequest)
    | FreePool(buffer: array?<uint32>)

  /** A run frees at most once, it frees only a buffer it has blitted before, and it
      blits only a buffer a pool allocation has handed back before. */
  predicate FreesOnceAfterBlt(trace: seq<FirmwareCall>)
  {
    (forall i, j | 0 <= i < j < |trace| :: !(trace[i].FreePool? && trace[j].FreePool?))
    && (forall j | 0 <= j < |trace| && trace[j].FreePool? ::
          exists i | 0 <= i < j :: trace[i].BltCall? && trace[i].buffer == trace[j].buffer)
    && (forall j | 0 <= j < |trace| && trace[j].BltCall? ::
          exists i | 0 <= i < j :: trace[i].AllocatePool? && trace[i].buffer == trace[j].buffer)
  }

  /** The run efi_main makes: SetMode and AllocatePool, then Blt and FreePool of the
      allocated buffer only when the allocation succeeded. */
  function MainTrace(mode: nat, size: nat, buffer: array?<uint32>, request: BltRequest, succeeded: bool)
    : (trace: seq<FirmwareCall>)
  {
    [SetMode(mode), AllocatePool(size, buffer)]
    + if succeeded then [BltCall(buffer, request), FreePool(buffer)] else []
  }

  /** Whether or not the allocation succeeds, that run frees at most once, only the
      buffer it allocated and blitted, and only after the Blt; and it frees exactly when
      the allocation succeeded. */
  lemma MainTraceFreesOnceAfterBlt(mode: nat, size: nat, buffer: array?<uint32>, request: BltRequest, succeeded: bool)
    ensures FreesOnceAfterBlt(MainTrace(mode, size, buffer, request, succeeded))
    ensures succeeded <==> exists j | 0 <= j < |MainTrace(mode, size, buffer, request, succeeded)| ::
      MainTrace(mode, size, buffer, request, succeeded)[j].FreePool?
  {
    var trace := MainTrace(mode, size, buffer, request, succeeded);
    if succeeded {
      assert trace[1].AllocatePool? && trace[2].BltCall? && trace[3].FreePool?;
    }
  }

  /** A buffer of n green pixels. */
  function GreenPixels(n: nat): (pixels: seq<uint32>)
  {
    seq(n, k => Green)
  }

  /** efi_main with the firmware's mode list and AllocatePool's answer as inputs: the
      services it calls, in order, and its status. The buffer is filled, shown and freed
      only when the allocation succeeds; the buffer shown and freed is the one the pool
      handed back, of the chosen mode's size, and it is freed once, after the Blt. */
  method EfiMain(graphics: Protocol, poolHasRoom: bool) returns (status: Status, trace: seq<FirmwareCall>)
    requires |graphics.modes| < 0x1_0000_0000
    requires forall i | 0 <= i < |graphics.modes| ::
      graphics.modes[i].horizontalResolution * graphics.modes[i].verticalResolution * 4 < 0x1_0000_0000
    ensures status == Success
    ensures FreesOnceAfterBlt(trace)
    ensures var (width, height) := ScannedSize(graphics.modes, 0, 0);
      |trace| >= 2 && trace[1].AllocatePool?
      && trace == MainTrace(AppliedMode(VisibleKeys(graphics.modes)), width * height * 4, trace[1].buffer,
           BltRequest(GreenPixels(width * height), width, height), poolHasRoom)
      && (poolHasRoom ==> trace[1].buffer != null && trace[1].buffer.Length == width * height)
  {
    var backbuffer := new Backbuffer();
    var mode := SelectGraphicsMode(backbuffer, graphics);
    trace := [SetMode(mode)];
    var allocation, requested := AllocateBuffer(backbuffer, poolHasRoom);
    var buffer := backbuffer.pixels;
    trace := trace + [AllocatePool(requested, buffer)];
    if allocation == Success {
      var request := BltGreen(backbuffer, graphics);
      assert request == BltRequest(GreenPixels(backbuffer.width * backbuffer.height),
        backbuffer.width, backbuffer.height);
      trace := trace + [BltCall(backbuffer.pixels, request)];
      var freed := FreeBuffer(backbuffer);
      trace := trace + [FreePool(freed)];
    }
    ghost var request := BltRequest(GreenPixels(backbuffer.width * backbuffer.height),
      backbuffer.width, backbuffer.height);
    MainTraceFreesOnceAfterBlt(mode, requested, buffer, request, poolHasRoom);
    assert trace == MainTrace(mode, requested, buffer, request, poolHasRoom);
    status := Success;
  }
}
