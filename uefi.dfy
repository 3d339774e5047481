/** Fixed-width integer types and the firmware records the framebuffer code consumes.
    Firmware calls themselves are not modelled: what a call would return is an input
    (the mode list a protocol reports, whether a pool allocation succeeds) and what a
    call is asked to do is an output record. */
module Uefi {
  import opened Arith

  type uint8 = x: int | 0 <= x < 0x100
  type uint32 = x: int | 0 <= x < 0x1_0000_0000
  type int32 = x: int | -0x8000_0000 <= x < 0x8000_0000

  datatype Option<+T> = None | Some(value: T)

  /** EFI_GRAPHICS_PIXEL_FORMAT, section 12.9 of the UEFI Specification. */
  datatype PixelFormat =
    | PixelRedGreenBlueReserved8BitPerColor
    | PixelBlueGreenRedReserved8BitPerColor
    | PixelBitMask
    | PixelBltOnly

  /** EFI_PIXEL_BITMASK: meaningful only when the format is PixelBitMask. */
  datatype PixelBitmask = PixelBitmask(redMask: uint32, greenMask: uint32, blueMask: uint32, reservedMask: uint32)

  /** EFI_GRAPHICS_OUTPUT_MODE_INFORMATION, as QueryMode reports it. */
  datatype ModeInfo = ModeInfo(
    horizontalResolution: uint32,
    verticalResolution: uint32,
    pixelFormat: PixelFormat,
    pixelInformation: PixelBitmask,
    pixelsPerScanLine: uint32)

  /** A located EFI_GRAPHICS_OUTPUT_PROTOCOL, reduced to what QueryMode answers for
      each mode number 0 .. MaxMode-1. */
  datatype Protocol = Protocol(modes: seq<ModeInfo>)

  /** The EFI_STATUS values the code distinguishes. */
  datatype Status = Success | InvalidParameter | OutOfResources

  /** The arguments of a Blt call with EfiBltBufferToVideo from (0, 0) to (0, 0) and
      Delta 0: the pixels the buffer holds at the time of the call, and the size of the
      rectangle. */
  datatype BltRequest = BltRequest(pixels: seq<uint32>, width: uint32, height: uint32)

  /** Product of two UINT32 values as C computes it in UINT32 arithmetic. */
  function Mul32(a: uint32, b: uint32): (r: uint32)
    ensures a * b < 0x1_0000_0000 ==> r == a * b
  {
    ModOfSmall(a * b, 0x1_0000_0000);
    (a * b) % 0x1_0000_0000
  }
}
