/** The packed 4bpp surface of the modern stack (graphics/pixmap.hpp). */
module Pixmaps {
  import opened Blocks
  import opened Nibbles

  /** A surface: `height` rows of Stride(width) bytes. */
  datatype Raster = Raster(width: nat, height: nat, bytes: seq<bv8>) {

    predicate Valid() { |bytes| == RowStart(height, Stride(width)) }

    predicate On(x: int, y: int) { 0 <= x < width && 0 <= y < height }
  }

  /** A raster with bytes for all its pixels. */
  type Surface = r: Raster | r.Valid() witness Raster(0, 0, [])

  function Cleared(r: Surface, fill: bv8): (r': Surface)
    ensures r' == r.(bytes := r'.bytes)
  {
    r.(bytes := Fill(|r.bytes|, fill))
  }

  /** The byte that holds the pixel (x, y). */
  function ByteIndex(r: Surface, x: nat, y: nat): (i: nat)
    requires r.On(x, y)
    ensures i < |r.bytes|
  {
    RowsApart(y, r.height, Stride(r.width));
    RowStart(y, Stride(r.width)) + x / 2
  }

  /** A byte with the nibble of column x replaced. */
  function WithNibble(b: bv8, x: nat, color: bv8): (r: bv8)
    ensures NibbleOf(r, x) == color & 0x0F
    ensures NibbleOf(r, x + 1) == NibbleOf(b, x + 1)
  {
    NibbleParity(x);
    if x % 2 == 0 then (b & 0x0F) | ((color & 0x0F) << 4) else (b & 0xF0) | (color & 0x0F)
  }

  lemma NibbleParity(x: nat)
    ensures (x + 1) % 2 == 1 - x % 2
  {
  }

  /** get_pixel */
  function Get(r: Surface, x: int, y: int): bv8
  {
    if r.On(x, y) then NibbleOf(r.bytes[ByteIndex(r, x, y)], x) else 0
  }

  /** set_pixel */
  function Set(r: Surface, x: int, y: int, color: bv8): (r': Surface)
    ensures r' == r.(bytes := r'.bytes)
  {
    if r.On(x, y) then
      var i := ByteIndex(r, x, y);
      r.(bytes := r.bytes[i := WithNibble(r.bytes[i], x, color)])
    else r
  }

  /** Two pixels share a byte only as the two columns of a pair. */
  lemma SameByte(r: Surface, x: nat, y: nat, px: nat, py: nat)
    requires r.On(x, y) && r.On(px, py)
    ensures ByteIndex(r, x, y) == ByteIndex(r, px, py) <==> y == py && x / 2 == px / 2
  {
    var stride := Stride(r.width);
    if y != py {
      RowsApart(y, py, stride);
    }
  }

  /** set_pixel changes its own pixel and no other, not even the one in the same byte. */
  lemma GetSet(r: Surface, x: int, y: int, color: bv8, px: int, py: int)
    ensures Get(Set(r, x, y, color), px, py) ==
            if px == x && py == y && r.On(x, y) then color & 0x0F else Get(r, px, py)
  {
    hide WithNibble, RowStart;
    if r.On(x, y) && r.On(px, py) {
      SameByte(r, x, y, px, py);
      if y == py && x / 2 == px / 2 && x != px {
        Neighbours(r.bytes[ByteIndex(r, x, y)], x, px, color);
      }
    }
  }

  lemma Neighbours(b: bv8, x: nat, px: nat, color: bv8)
    requires x != px && x / 2 == px / 2
    ensures NibbleOf(WithNibble(b, x, color), px) == NibbleOf(b, px)
  {
    hide WithNibble;
    var w := WithNibble(b, x, color);
    assert NibbleOf(w, x + 1) == NibbleOf(b, x + 1);
    assert px % 2 == (x + 1) % 2;
  }

  /** A surface of even width is determined by its pixels: it has no unused nibble. */
  lemma PixelsDetermine(a: Surface, b: Surface)
    requires a.width == b.width && a.height == b.height && a.width % 2 == 0
    requires forall x, y :: a.On(x, y) ==> Get(a, x, y) == Get(b, x, y)
    ensures a == b
  {
    hide RowStart, ByteIndex;
    var stride := Stride(a.width);
    forall i | 0 <= i < |a.bytes| ensures a.bytes[i] == b.bytes[i] {
      RowStartIsProduct(a.height, stride);
      RowOfIndex(i, a.height, stride);
      var y, x := RowAt(i, stride), 2 * ColAt(i, stride);
      ByteAt(a, i, x, y);
      ByteAt(b, i, x, y);
      assert Get(a, x, y) == Get(b, x, y) && Get(a, x + 1, y) == Get(b, x + 1, y);
      NibblesDetermine(a.bytes[i], b.bytes[i]);
    }
  }

  lemma NibblesDetermine(a: bv8, b: bv8)
    requires a >> 4 == b >> 4 && a & 0x0F == b & 0x0F
    ensures a == b
  {
  }

  lemma ByteAt(r: Surface, i: nat, x: nat, y: nat)
    requires r.On(x, y) && r.On(x + 1, y) && x % 2 == 0
    requires i == RowStart(y, Stride(r.width)) + x / 2 && i < |r.bytes|
    ensures Get(r, x, y) == r.bytes[i] >> 4 && Get(r, x + 1, y) == r.bytes[i] & 0x0F
  {
    assert (x + 1) / 2 == x / 2;
  }

  /** clear(0xFF) makes every pixel white. */
  lemma ClearedPixel(r: Surface, fill: bv8, x: int, y: int)
    ensures Get(Cleared(r, fill), x, y) == if r.On(x, y) then NibbleOf(fill, x) else 0
  {
  }

  class OwnedPixmap {
    const width: nat
    const height: nat
    const stride: nat
    var storage: seq<bv8>

    ghost function Abs(): Raster
      reads this
    {
      Raster(width, height, storage)
    }

    ghost predicate Valid()
      reads this
    {
      stride == Stride(width) && Abs().Valid()
    }

    constructor (w: nat, h: nat)
      ensures Valid() && Abs() == Raster(w, h, Fill(RowStart(h, Stride(w)), 0))
    {
      RowStartIsProduct(h, Stride(w));
      width, height, stride := w, h, (w + 1) / 2;
      storage := Fill((w + 1) / 2 * h, 0);
    }

    method Clear(fill: bv8)
      requires Valid()
      modifies this
      ensures Valid() && Abs() == Cleared(old(Abs()), fill)
    {
      storage := Fill(|storage|, fill);
    }

    method SetPixel(x: int, y: int, color: bv8)
      requires Valid()
      modifies this
      ensures Valid() && Abs() == Set(old(Abs()), x, y, color)
    {
      hide RowStart;
      if x < 0 || x >= width || y < 0 || y >= height {
        return;
      }
      RowStartIsProduct(y, stride);
      var byteIdx := y * stride + x / 2;
      assert byteIdx == ByteIndex(Abs(), x, y);
      var val := color & 0x0F;
      if x % 2 == 0 {
        storage := storage[byteIdx := (storage[byteIdx] & 0x0F) | (val << 4)];
      } else {
        storage := storage[byteIdx := (storage[byteIdx] & 0xF0) | val];
      }
    }

    method GetPixel(x: int, y: int) returns (color: bv8)
      requires Valid()
      ensures color == Get(Abs(), x, y)
    {
      if x < 0 || x >= width || y < 0 || y >= height {
        return 0;
      }
      RowStartIsProduct(y, stride);
      var byteIdx := y * stride + x / 2;
      assert byteIdx == ByteIndex(Abs(), x, y);
      var byteVal := storage[byteIdx];
      if x % 2 == 0 {
        return (byteVal >> 4) & 0x0F;
      }
      return byteVal & 0x0F;
    }
  }
}
