/** The solid fill of a flat width*height pixel buffer, written the same way in
    graphics_fill_solid_color (graphics.c) and blt_green (beef.c): an outer loop over
    the first index of each row, stepping by the width, and an inner loop over the
    columns of the row. */
module Fill {
  import opened Uefi
  import opened Arith

  /** Every pixel of the first width*height holds `color` afterwards; every later pixel
      keeps its value. */
  method FillRegion(pixels: array<uint32>, width: uint32, height: uint32, color: uint32)
    requires width * height < 0x1_0000_0000 && width * height <= pixels.Length
    modifies pixels
    ensures forall k | 0 <= k < pixels.Length ::
      pixels[k] == if k < width * height then color else old(pixels[k])
  {
    var resolution := Mul32(height, width);
    var y: nat := 0;
    ghost var row: nat := 0;
    while y < resolution
      invariant y == row * width && y <= resolution
      invariant forall k | 0 <= k < pixels.Length :: pixels[k] == if k < y then color else old(pixels[k])
      decreases resolution - y
    {
      NextBlock(row, height, width);
      var x: nat := 0;
      while x < width
        invariant x <= width
        invariant forall k | 0 <= k < pixels.Length :: pixels[k] == if k < y + x then color else old(pixels[k])
      {
        pixels[y + x] := color;
        x := x + 1;
      }
      y := y + width;
      row := row + 1;
    }
  }
}
