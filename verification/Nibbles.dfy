/** Packed 4-bit pixels: two to a byte, the left one in the high nibble. */
module Nibbles {
  import opened Blocks

  /** Bytes per row of a picture of the given width. */
  function Stride(width: nat): nat { (width + 1) / 2 }

  /** The nibble of a byte for an even (high) or odd (low) column. */
  function NibbleOf(b: bv8, column: nat): bv8 {
    if column % 2 == 0 then b >> 4 else b & 0x0F
  }

  /** Nibble q of a buffer; nibbles are counted from the start of the buffer. */
  function Nibble(bytes: seq<bv8>, q: nat): bv8
    requires q / 2 < |bytes|
  {
    NibbleOf(bytes[q / 2], q)
  }

  /** The pixel at (x, y); x may also name the unused last nibble of a row of odd width. */
  function Pixel(bytes: seq<bv8>, stride: nat, x: nat, y: nat): bv8
    requires x < 2 * stride && RowStart(y, stride) + stride <= |bytes|
  {
    Nibble(bytes, 2 * RowStart(y, stride) + x)
  }
}
