/** The packed blit of the legacy front end (pix_blt of pixop.c), byte by byte, against the picture it draws. */
module PixBlt {
  import opened Blocks
  import opened Memory
  import opened Nibbles

  class Pixmap {
    const width: nat
    const height: nat
    const surface: array<bv8>

    ghost predicate Valid() {
      surface.Length == RowStart(height, Stride(width))
    }

    /** pix_alloc */
    constructor (w: nat, h: nat)
      ensures Valid() && width == w && height == h && fresh(surface)
      ensures forall i :: 0 <= i < surface.Length ==> surface[i] == 0
    {
      RowStartIsProduct(h, Stride(w));
      width, height := w, h;
      surface := new bv8[h * Stride(w)](_ => 0);
    }
  }

  /** The byte that starts a row at an odd column: its high nibble belongs to a pixel outside. */
  function FirstByte(d: bv8, s: bv8, bg: bv8): (r: bv8)
    ensures r >> 4 == d >> 4
    ensures r & 0x0F == (s >> 4) | (bg & 0x0F)
  {
    (d & 0xF0) | (s >> 4) | (bg & 0x0F)
  }

  /** A byte within a row at an odd column: the low nibble of one source byte and the high one of the next. */
  function MiddleByte(s: bv8, t: bv8, bg: bv8): (r: bv8)
    ensures r >> 4 == (s & 0x0F) | (bg >> 4)
    ensures r & 0x0F == (t >> 4) | (bg & 0x0F)
  {
    (s << 4) | (t >> 4) | bg
  }

  /** The byte that ends a row at an odd column: its low nibble belongs to a pixel outside. */
  function EndByte(d: bv8, s: bv8, bg: bv8): (r: bv8)
    ensures r >> 4 == (s & 0x0F) | (bg >> 4)
    ensures r & 0x0F == d & 0x0F
  {
    (d & 0x0F) | (s << 4) | (bg & 0xF0)
  }

  /** The byte that ends a row of odd width at an even column. */
  function HalfByte(d: bv8, s: bv8, bg: bv8): (r: bv8)
    ensures r >> 4 == (s >> 4) | (bg >> 4)
    ensures r & 0x0F == d & 0x0F
  {
    (d & 0x0F) | (s & 0xF0) | (bg & 0xF0)
  }

  /** A whole byte at an even column. */
  function WholeByte(s: bv8, bg: bv8): (r: bv8)
    ensures r >> 4 == (s >> 4) | (bg >> 4)
    ensures r & 0x0F == (s & 0x0F) | (bg & 0x0F)
    ensures bg == 0 ==> r == s
  {
    s | bg
  }

  /** The bytes of a row when the destination column is even: copied and ORed, the last one by halves. */
  function EvenRow(dst: seq<bv8>, src: seq<bv8>, width: nat, bg: bv8): (r: seq<bv8>)
    requires |dst| == |src| == Stride(width)
    ensures |r| == Stride(width)
  {
    seq(|dst|, k requires 0 <= k < |dst| =>
      if k < width / 2 then WholeByte(src[k], bg) else HalfByte(dst[k], src[k], bg))
  }

  /** The bytes of a row when the destination column is odd: every byte takes halves of two source bytes. */
  function OddRow(dst: seq<bv8>, src: seq<bv8>, width: nat, bg: bv8): (r: seq<bv8>)
    requires width >= 1 && |src| == Stride(width) && |dst| == width / 2 + 1
    ensures |r| == width / 2 + 1
  {
    seq(|dst|, k requires 0 <= k < |dst| =>
      if k == 0 then FirstByte(dst[0], src[0], bg)
      else if k < Stride(width) then MiddleByte(src[k - 1], src[k], bg)
      else EndByte(dst[k], src[k - 1], bg))
  }

  lemma EvenRowByte(dst: seq<bv8>, src: seq<bv8>, width: nat, bg: bv8, k: nat)
    requires |dst| == |src| == Stride(width) && k < |dst|
    ensures EvenRow(dst, src, width, bg)[k]
         == if k < width / 2 then WholeByte(src[k], bg) else HalfByte(dst[k], src[k], bg)
  {
    hide WholeByte, HalfByte;
  }

  lemma OddRowByte(dst: seq<bv8>, src: seq<bv8>, width: nat, bg: bv8, k: nat)
    requires width >= 1 && |src| == Stride(width) && |dst| == width / 2 + 1 && k < |dst|
    ensures OddRow(dst, src, width, bg)[k]
         == if k == 0 then FirstByte(dst[0], src[0], bg)
            else if k < Stride(width) then MiddleByte(src[k - 1], src[k], bg)
            else EndByte(dst[k], src[k - 1], bg)
  {
    hide FirstByte, MiddleByte, EndByte;
  }

  /** A row of the blit at an even column, nibble by nibble. */
  lemma EvenRowNibble(dst: seq<bv8>, src: seq<bv8>, width: nat, bg: bv8, q: nat)
    requires |dst| == |src| == Stride(width) && q / 2 < |dst|
    ensures Nibble(EvenRow(dst, src, width, bg), q)
         == if q < width then Nibble(src, q) | NibbleOf(bg, q) else Nibble(dst, q)
  {
    hide WholeByte, HalfByte;
  }

  /** The same at an odd column, where the first nibble of the bytes is not part of the row. */
  lemma OddRowNibble(dst: seq<bv8>, src: seq<bv8>, width: nat, bg: bv8, q: nat)
    requires width >= 1 && |src| == Stride(width) && |dst| == width / 2 + 1 && q / 2 < |dst|
    ensures Nibble(OddRow(dst, src, width, bg), q)
         == if 1 <= q < 1 + width then Nibble(src, q - 1) | NibbleOf(bg, q) else Nibble(dst, q)
  {
    hide FirstByte, MiddleByte, EndByte;
  }

  lemma PutUpdate(s: seq<bv8>, at: nat, block: seq<bv8>, k: nat, b: bv8)
    requires at + |block| <= |s| && k < |block|
    ensures Put(s, at, block)[at + k := b] == Put(s, at, block[k := b])
  {
  }

  lemma PutSnoc(s: seq<bv8>, at: nat, block: seq<bv8>, b: bv8)
    requires at + |block| < |s|
    ensures Put(s, at, block)[at + |block| := b] == Put(s, at, block + [b])
    ensures Put(s, at, block)[at + |block|] == s[at + |block|]
  {
  }

  function Ored(bytes: seq<bv8>, bg: bv8): (r: seq<bv8>)
    ensures |r| == |bytes|
  {
    seq(|bytes|, k requires 0 <= k < |bytes| => WholeByte(bytes[k], bg))
  }

  lemma OneMore(row: seq<bv8>, b: seq<bv8>, j: nat)
    requires |row| == |b| && j < |b|
    ensures (row[..j] + b[j..])[j := row[j]] == row[..j + 1] + b[j + 1..]
  {
  }

  /** The loop that ORs the background into the bytes just copied; it is skipped for background 0. */
  method OrBytes(dst: array<bv8>, d: nat, w: nat, bg: bv8)
    requires d + w <= dst.Length
    modifies dst
    ensures dst[..] == Put(old(dst[..]), d, Ored(old(dst[d..d + w]), bg))
  {
    hide WholeByte, Put;
    ghost var was, b := dst[..], dst[d..d + w];
    ghost var row := Ored(b, bg);
    assert Put(was, d, b) == was;
    if bg != 0 {
      for j := 0 to w
        invariant dst[..] == Put(was, d, row[..j] + b[j..])
      {
        PutUpdate(was, d, row[..j] + b[j..], j, row[j]);
        assert dst[..][d + j] == b[j];
        OneMore(row, b, j);
        dst[d + j] := dst[d + j] | bg;
      }
      assert row[..w] + b[w..] == row;
    } else {
      assert row == b;
    }
  }

  /** The whole bytes of a row are the copied ones with the background. */
  lemma WholeBytes(dst: seq<bv8>, src: seq<bv8>, width: nat, bg: bv8)
    requires |dst| == |src| == Stride(width)
    ensures EvenRow(dst, src, width, bg)[..width / 2] == Ored(src[..width / 2], bg)
  {
    hide WholeByte, HalfByte;
  }

  lemma PutTwice(s: seq<bv8>, at: nat, x: seq<bv8>, y: seq<bv8>)
    requires at + |x| <= |s| && |x| == |y|
    ensures Put(Put(s, at, x), at, y) == Put(s, at, y)
    ensures Put(s, at, x)[at..at + |x|] == x
  {
  }

  /** The loop body for an even destination column. */
  method BltRowEven(dst: array<bv8>, d: nat, src: array<bv8>, s: nat, width: nat, bg: bv8)
    requires dst != src && d + Stride(width) <= dst.Length && s + Stride(width) <= src.Length
    modifies dst
    ensures dst[..] == Put(old(dst[..]), d,
                           EvenRow(old(dst[d..d + Stride(width)]), src[s..s + Stride(width)], width, bg))
  {
    hide HalfByte, EvenRow, Put, Ored;
    var w := width / 2;
    ghost var was, a, b := dst[..], dst[d..d + Stride(width)], src[s..s + Stride(width)];
    ghost var row := EvenRow(a, b, width, bg);
    WholeBytes(a, b, width, bg);
    PutTwice(was, d, b[..w], row[..w]);
    Memcpy(dst, d, src, s, w);
    assert src[s..s + w] == b[..w];
    assert dst[d..d + w] == dst[..][d..d + w];
    OrBytes(dst, d, w, bg);
    if width % 2 == 1 {
      EvenRowByte(a, b, width, bg, w);
      PutSnoc(was, d, row[..w], row[w]);
      assert dst[..][d + w] == was[d + w] == a[w] && src[s + w] == b[w];
      assert row[..w] + [row[w]] == row;
      dst[d + w] := HalfByte(dst[d + w], src[s + w], bg);
    } else {
      assert row[..w] == row;
    }
  }

  /** The whole bytes of a row at an odd column; `was` and `a` are the bytes before the row was begun. */
  method BltMiddle(dst: array<bv8>, d: nat, src: array<bv8>, s: nat, width: nat, bg: bv8,
                   ghost was: seq<bv8>, ghost a: seq<bv8>)
    requires width >= 1 && dst != src && d + width / 2 + 1 <= dst.Length && s + Stride(width) <= src.Length
    requires |was| == dst.Length && |a| == width / 2 + 1
    requires dst[..] == Put(was, d, OddRow(a, src[s..s + Stride(width)], width, bg)[..1])
    modifies dst
    ensures dst[..] == Put(was, d, OddRow(a, src[s..s + Stride(width)], width, bg)[..Stride(width)])
  {
    hide FirstByte, MiddleByte, EndByte, OddRow, Put;
    ghost var b := src[s..s + Stride(width)];
    ghost var row := OddRow(a, b, width, bg);
    for j := 1 to Stride(width)
      invariant dst[..] == Put(was, d, row[..j])
    {
      OddRowByte(a, b, width, bg, j);
      PutSnoc(was, d, row[..j], row[j]);
      assert src[s + j - 1] == b[j - 1] && src[s + j] == b[j] && row[..j] + [row[j]] == row[..j + 1];
      dst[d + j] := MiddleByte(src[s + j - 1], src[s + j], bg);
    }
  }

  /** The loop body for an odd destination column. */
  method BltRowOdd(dst: array<bv8>, d: nat, src: array<bv8>, s: nat, width: nat, bg: bv8)
    requires width >= 1 && dst != src && d + width / 2 + 1 <= dst.Length && s + Stride(width) <= src.Length
    modifies dst
    ensures dst[..] == Put(old(dst[..]), d,
                           OddRow(old(dst[d..d + width / 2 + 1]), src[s..s + Stride(width)], width, bg))
  {
    hide FirstByte, MiddleByte, EndByte, OddRow, Put;
    var w := (width + 1) / 2;
    ghost var was, a, b := dst[..], dst[d..d + width / 2 + 1], src[s..s + Stride(width)];
    ghost var row := OddRow(a, b, width, bg);
    OddRowByte(a, b, width, bg, 0);
    PutSnoc(was, d, row[..0], row[0]);
    assert Put(was, d, row[..0]) == was && row[..0] + [row[0]] == row[..1];
    dst[d] := FirstByte(dst[d], src[s], bg);
    BltMiddle(dst, d, src, s, width, bg, was, a);
    if width % 2 == 0 {
      OddRowByte(a, b, width, bg, w);
      PutSnoc(was, d, row[..w], row[w]);
      assert dst[..][d + w] == was[d + w] == a[w] && src[s + w - 1] == b[w - 1];
      assert row[..w] + [row[w]] == row;
      dst[d + w] := EndByte(dst[d + w], src[s + w - 1], bg);
    } else {
      assert row[..w] == row;
    }
  }

  /** After the first byte of a row of width 0 the code writes the byte that would end it: the same byte again. */
  lemma ZeroWidthOverwrites(d: bv8, before: bv8, at: bv8, bg: bv8)
    ensures EndByte(FirstByte(d, at, bg), before, bg) == MiddleByte(before, at, bg)
  {
  }

  /** The loop body for width 0 at an odd column; it reads the byte before the source row. */
  method BltRowZero(dst: array<bv8>, d: nat, src: array<bv8>, s: nat, bg: bv8)
    requires dst != src && d < dst.Length && 1 <= s < src.Length
    modifies dst
    ensures dst[..] == old(dst[..])[d := MiddleByte(src[s - 1], src[s], bg)]
  {
    hide FirstByte, MiddleByte, EndByte;
    ZeroWidthOverwrites(dst[d], src[s - 1], src[s], bg);
    dst[d] := FirstByte(dst[d], src[s], bg);
    dst[d] := EndByte(dst[d], src[s - 1], bg);
  }

  /** Where a blit reads and writes. */
  datatype Blit = Blit(dx: nat, dy: nat, sx: nat, sy: nat, width: nat, bg: bv8)

  /** A blit of no pixels that takes the way of odd columns. */
  predicate Slips(b: Blit) { b.width == 0 && b.dx % 2 == 1 }

  /** The bytes a row writes. */
  function Written(b: Blit): nat { if b.dx % 2 == 0 then Stride(b.width) else b.width / 2 + 1 }

  /** The bytes a row reads, of the source row. */
  function Read(b: Blit): nat { if Slips(b) then 1 else Stride(b.width) }

  /** The columns a blit writes: those of its rectangle, unless there are none. */
  predicate InColumns(b: Blit, x: int) {
    if Slips(b) then b.dx - 1 <= x <= b.dx else b.dx <= x < b.dx + b.width
  }

  /** The rows lie in the pictures, and the byte before the source row exists where it is read. */
  predicate Inside(b: Blit, dstWidth: nat, dstHeight: nat, srcWidth: nat, srcHeight: nat, rows: nat) {
    && b.sx % 2 == 0
    && b.dx + b.width <= dstWidth && b.dy + rows <= dstHeight
    && b.sx + b.width <= srcWidth && b.sy + rows <= srcHeight
    && (Slips(b) && rows > 0 ==> b.sx < srcWidth && b.sy + b.sx >= 1)
  }

  /** The buffers of a blit are big enough for its rows, of which there are `height`. */
  ghost predicate InRange(b: Blit, dst: seq<bv8>, dstWidth: nat, dstHeight: nat,
                          src: seq<bv8>, srcWidth: nat, srcHeight: nat, height: nat) {
    && Inside(b, dstWidth, dstHeight, srcWidth, srcHeight, height)
    && |dst| == RowStart(dstHeight, Stride(dstWidth)) && |src| == RowStart(srcHeight, Stride(srcWidth))
  }

  /** The pixel (x, y) falls in what a blit of `rows` rows writes. */
  predicate Touched(b: Blit, rows: nat, x: nat, y: nat) { InColumns(b, x) && b.dy <= y < b.dy + rows }

  /** The nibble of the source that a touched pixel takes. */
  function SourceNibble(b: Blit, srcStride: nat, x: nat, y: nat): int
    requires b.dy <= y
  {
    2 * RowStart(b.sy + y - b.dy, srcStride) + b.sx + x - b.dx
  }

  /** The picture a blit of `rows` rows draws: pixel for pixel, with no regard to bytes. */
  function Target(b: Blit, was: seq<bv8>, stride: nat, src: seq<bv8>, srcStride: nat, rows: nat, x: nat, y: nat): bv8
    requires x < 2 * stride && RowStart(y, stride) + stride <= |was|
    requires Touched(b, rows, x, y) ==> 0 <= SourceNibble(b, srcStride, x, y) < 2 * |src|
  {
    if Touched(b, rows, x, y) then Nibble(src, SourceNibble(b, srcStride, x, y)) | NibbleOf(b.bg, x)
    else Pixel(was, stride, x, y)
  }

  /** The bytes of a row that start at d in the destination and at s in the source are there. */
  predicate RowFits(b: Blit, was: seq<bv8>, d: nat, src: seq<bv8>, s: nat) {
    d + Written(b) <= |was| && s + Read(b) <= |src| && (Slips(b) ==> s >= 1)
  }

  /** What the loop body writes. */
  function RowDrawn(b: Blit, was: seq<bv8>, d: nat, src: seq<bv8>, s: nat): (now: seq<bv8>)
    requires RowFits(b, was, d, src, s)
    ensures |now| == |was|
  {
    if b.dx % 2 == 0 then
      Put(was, d, EvenRow(was[d..d + Stride(b.width)], src[s..s + Stride(b.width)], b.width, b.bg))
    else if b.width == 0 then
      was[d := MiddleByte(src[s - 1], src[s], b.bg)]
    else
      Put(was, d, OddRow(was[d..d + b.width / 2 + 1], src[s..s + Stride(b.width)], b.width, b.bg))
  }

  lemma PutNibble(was: seq<bv8>, d: nat, block: seq<bv8>, q: nat)
    requires d + |block| <= |was| && q / 2 < |was|
    ensures d <= q / 2 < d + |block| ==>
              q >= 2 * d && (q - 2 * d) / 2 < |block| && Nibble(Put(was, d, block), q) == Nibble(block, q - 2 * d)
    ensures !(d <= q / 2 < d + |block|) ==> Nibble(Put(was, d, block), q) == Nibble(was, q)
  {
  }

  lemma SliceNibble(bytes: seq<bv8>, s: nat, n: nat, k: nat)
    requires s + n <= |bytes| && k / 2 < n
    ensures (2 * s + k) / 2 < |bytes| && Nibble(bytes[s..s + n], k) == Nibble(bytes, 2 * s + k)
  {
  }

  /** The loop body, nibble by nibble: exactly the nibbles of the columns written change. */
  lemma RowDrawnNibble(b: Blit, was: seq<bv8>, d: nat, src: seq<bv8>, s: nat, q: nat)
    requires RowFits(b, was, d, src, s) && q / 2 < |was|
    ensures var x := q - 2 * d + b.dx - b.dx % 2;
            Nibble(RowDrawn(b, was, d, src, s), q) ==
            if InColumns(b, x) then Nibble(src, 2 * s + x - b.dx) | NibbleOf(b.bg, q) else Nibble(was, q)
  {
    hide RowDrawn, Nibble;
    if b.dx % 2 == 0 {
      EvenRowDrawn(b, was, d, src, s, q);
    } else if b.width == 0 {
      ZeroRowDrawn(b, was, d, src, s, q);
    } else {
      OddRowDrawn(b, was, d, src, s, q);
    }
  }

  lemma EvenRowDrawn(b: Blit, was: seq<bv8>, d: nat, src: seq<bv8>, s: nat, q: nat)
    requires b.dx % 2 == 0 && d + Stride(b.width) <= |was| && s + Stride(b.width) <= |src| && q / 2 < |was|
    ensures Nibble(RowDrawn(b, was, d, src, s), q) ==
            if 2 * d <= q < 2 * d + b.width then Nibble(src, 2 * s + q - 2 * d) | NibbleOf(b.bg, q)
            else Nibble(was, q)
  {
    hide EvenRow, Put, Nibble;
    var n := Stride(b.width);
    var to, from := was[d..d + n], src[s..s + n];
    PutNibble(was, d, EvenRow(to, from, b.width, b.bg), q);
    if d <= q / 2 < d + n {
      EvenRowNibble(to, from, b.width, b.bg, q - 2 * d);
      SliceNibble(was, d, n, q - 2 * d);
      SliceNibble(src, s, n, q - 2 * d);
      SameParity(b.bg, q - 2 * d, d);
    }
  }

  lemma OddRowDrawn(b: Blit, was: seq<bv8>, d: nat, src: seq<bv8>, s: nat, q: nat)
    requires b.dx % 2 == 1 && b.width >= 1
    requires d + b.width / 2 + 1 <= |was| && s + Stride(b.width) <= |src| && q / 2 < |was|
    ensures Nibble(RowDrawn(b, was, d, src, s), q) ==
            if 2 * d + 1 <= q < 2 * d + 1 + b.width then Nibble(src, 2 * s + q - 2 * d - 1) | NibbleOf(b.bg, q)
            else Nibble(was, q)
  {
    hide OddRow, Put, Nibble;
    var w, n := Stride(b.width), b.width / 2 + 1;
    var to, from := was[d..d + n], src[s..s + w];
    PutNibble(was, d, OddRow(to, from, b.width, b.bg), q);
    if d <= q / 2 < d + n {
      OddRowNibble(to, from, b.width, b.bg, q - 2 * d);
      SliceNibble(was, d, n, q - 2 * d);
      SameParity(b.bg, q - 2 * d, d);
      if 1 <= q - 2 * d < 1 + b.width {
        SliceNibble(src, s, w, q - 2 * d - 1);
      }
    }
  }

  lemma ZeroRowDrawn(b: Blit, was: seq<bv8>, d: nat, src: seq<bv8>, s: nat, q: nat)
    requires Slips(b) && d < |was| && 1 <= s < |src| && q / 2 < |was|
    ensures Nibble(RowDrawn(b, was, d, src, s), q) ==
            if 2 * d <= q <= 2 * d + 1 then Nibble(src, 2 * s + q - 2 * d - 1) | NibbleOf(b.bg, q)
            else Nibble(was, q)
  {
    hide MiddleByte;
  }

  lemma SameParity(b: bv8, k: nat, d: nat)
    ensures NibbleOf(b, 2 * d + k) == NibbleOf(b, k)
  {
  }

  /** After `rows` rows the destination shows the target picture, unused nibbles of odd rows included. */
  ghost predicate Shows(b: Blit, now: seq<bv8>, was: seq<bv8>, dstWidth: nat, dstHeight: nat,
                        src: seq<bv8>, srcWidth: nat, srcHeight: nat, rows: nat)
    requires InRange(b, was, dstWidth, dstHeight, src, srcWidth, srcHeight, rows) && |now| == |was|
  {
    forall x: nat, y: nat :: x < 2 * Stride(dstWidth) && y < dstHeight ==>
      (PixelInRange(b, dstWidth, dstHeight, srcWidth, srcHeight, rows, x, y);
       Pixel(now, Stride(dstWidth), x, y) == Target(b, was, Stride(dstWidth), src, Stride(srcWidth), rows, x, y))
  }

  lemma PixelInRange(b: Blit, dstWidth: nat, dstHeight: nat, srcWidth: nat, srcHeight: nat, rows: nat, x: nat, y: nat)
    requires Inside(b, dstWidth, dstHeight, srcWidth, srcHeight, rows) && y < dstHeight
    ensures RowStart(y, Stride(dstWidth)) + Stride(dstWidth) <= RowStart(dstHeight, Stride(dstWidth))
    ensures Touched(b, rows, x, y) ==>
              0 <= SourceNibble(b, Stride(srcWidth), x, y) < 2 * RowStart(srcHeight, Stride(srcWidth))
  {
    hide RowStart;
    RowsApart(y, dstHeight, Stride(dstWidth));
    if b.dy <= y < b.dy + rows {
      RowsApart(b.sy + y - b.dy, srcHeight, Stride(srcWidth));
      RowsApart(0, b.sy + y - b.dy, Stride(srcWidth));
    }
  }

  /** The offsets of row i. */
  function DstOffset(b: Blit, dstWidth: nat, i: nat): nat { RowStart(b.dy + i, Stride(dstWidth)) + b.dx / 2 }

  function SrcOffset(b: Blit, srcWidth: nat, i: nat): nat { RowStart(b.sy + i, Stride(srcWidth)) + b.sx / 2 }

  lemma RowOffsets(b: Blit, dst: seq<bv8>, dstWidth: nat, dstHeight: nat,
                   src: seq<bv8>, srcWidth: nat, srcHeight: nat, rows: nat, i: nat)
    requires InRange(b, dst, dstWidth, dstHeight, src, srcWidth, srcHeight, rows) && i < rows
    ensures RowFits(b, dst, DstOffset(b, dstWidth, i), src, SrcOffset(b, srcWidth, i))
  {
    hide RowStart;
    RowsApart(b.dy + i, dstHeight, Stride(dstWidth));
    RowsApart(b.sy + i, srcHeight, Stride(srcWidth));
    RowsApart(0, b.sy + i, Stride(srcWidth));
  }

  /** The destination after `rows` rows. */
  function RowsDrawn(b: Blit, was: seq<bv8>, dstWidth: nat, dstHeight: nat,
                     src: seq<bv8>, srcWidth: nat, srcHeight: nat, rows: nat): (now: seq<bv8>)
    requires InRange(b, was, dstWidth, dstHeight, src, srcWidth, srcHeight, rows)
    ensures |now| == |was|
  {
    if rows == 0 then was
    else
      (RowOffsets(b, was, dstWidth, dstHeight, src, srcWidth, srcHeight, rows, rows - 1);
       RowDrawn(b, RowsDrawn(b, was, dstWidth, dstHeight, src, srcWidth, srcHeight, rows - 1),
                DstOffset(b, dstWidth, rows - 1), src, SrcOffset(b, srcWidth, rows - 1)))
  }

  /** They show the target picture. */
  lemma {:induction false} RowsShow(b: Blit, was: seq<bv8>, dstWidth: nat, dstHeight: nat,
                                    src: seq<bv8>, srcWidth: nat, srcHeight: nat, rows: nat)
    requires InRange(b, was, dstWidth, dstHeight, src, srcWidth, srcHeight, rows)
    ensures Shows(b, RowsDrawn(b, was, dstWidth, dstHeight, src, srcWidth, srcHeight, rows), was,
                  dstWidth, dstHeight, src, srcWidth, srcHeight, rows)
  {
    hide RowStart, RowDrawn, Shows;
    if rows == 0 {
      NothingShown(b, was, dstWidth, dstHeight, src, srcWidth, srcHeight);
    } else {
      RowsShow(b, was, dstWidth, dstHeight, src, srcWidth, srcHeight, rows - 1);
      RowOffsets(b, was, dstWidth, dstHeight, src, srcWidth, srcHeight, rows, rows - 1);
      RowShows(b, RowsDrawn(b, was, dstWidth, dstHeight, src, srcWidth, srcHeight, rows - 1), was,
               dstWidth, dstHeight, src, srcWidth, srcHeight, rows - 1);
    }
  }

  lemma NothingShown(b: Blit, was: seq<bv8>, dstWidth: nat, dstHeight: nat,
                     src: seq<bv8>, srcWidth: nat, srcHeight: nat)
    requires InRange(b, was, dstWidth, dstHeight, src, srcWidth, srcHeight, 0)
    ensures Shows(b, was, was, dstWidth, dstHeight, src, srcWidth, srcHeight, 0)
  {
    hide RowStart, Nibble;
  }

  /** One more row. */
  lemma RowShows(b: Blit, now: seq<bv8>, was: seq<bv8>, dstWidth: nat, dstHeight: nat,
                 src: seq<bv8>, srcWidth: nat, srcHeight: nat, i: nat)
    requires InRange(b, was, dstWidth, dstHeight, src, srcWidth, srcHeight, i + 1) && |now| == |was|
    requires InRange(b, was, dstWidth, dstHeight, src, srcWidth, srcHeight, i)
    requires Shows(b, now, was, dstWidth, dstHeight, src, srcWidth, srcHeight, i)
    requires RowFits(b, now, DstOffset(b, dstWidth, i), src, SrcOffset(b, srcWidth, i))
    ensures Shows(b, RowDrawn(b, now, DstOffset(b, dstWidth, i), src, SrcOffset(b, srcWidth, i)), was,
                  dstWidth, dstHeight, src, srcWidth, srcHeight, i + 1)
  {
    hide RowStart, RowDrawn, Nibble, Target;
    var d, s := DstOffset(b, dstWidth, i), SrcOffset(b, srcWidth, i);
    forall x: nat, y: nat | x < 2 * Stride(dstWidth) && y < dstHeight
      ensures RowStart(y, Stride(dstWidth)) + Stride(dstWidth) <= |was|
      ensures (PixelInRange(b, dstWidth, dstHeight, srcWidth, srcHeight, i + 1, x, y);
               Pixel(RowDrawn(b, now, d, src, s), Stride(dstWidth), x, y)
               == Target(b, was, Stride(dstWidth), src, Stride(srcWidth), i + 1, x, y))
    {
      PixelInRange(b, dstWidth, dstHeight, srcWidth, srcHeight, i + 1, x, y);
      PixelInRange(b, dstWidth, dstHeight, srcWidth, srcHeight, i, x, y);
      RowPixel(b, now, was, dstWidth, dstHeight, src, srcWidth, srcHeight, i, x, y);
    }
  }

  /** Which nibbles of the buffer are pixels first..past of the row that starts at byte `to`. */
  lemma RowPlace(at: nat, to: nat, stride: nat, x: nat, y: nat, first: nat, past: nat, row: nat)
    requires y < row ==> at + stride <= to
    requires y > row ==> to + stride <= at
    requires y == row ==> at == to
    requires x < 2 * stride && past <= 2 * stride
    ensures 2 * to + first <= 2 * at + x < 2 * to + past <==> y == row && first <= x < past
  {
  }

  lemma ColumnPlace(b: Blit, at: nat, to: nat, stride: nat, x: nat, y: nat, row: nat)
    requires y < row ==> at + stride <= to
    requires y > row ==> to + stride <= at
    requires y == row ==> at == to
    requires x < 2 * stride && b.dx + b.width <= 2 * stride
    ensures InColumns(b, 2 * at + x - 2 * to) <==> y == row && InColumns(b, x)
  {
    if Slips(b) {
      RowPlace(at, to, stride, x, y, b.dx - 1, b.dx + 1, row);
    } else {
      RowPlace(at, to, stride, x, y, b.dx, b.dx + b.width, row);
    }
  }

  lemma RowPixel(b: Blit, now: seq<bv8>, was: seq<bv8>, dstWidth: nat, dstHeight: nat,
                 src: seq<bv8>, srcWidth: nat, srcHeight: nat, i: nat, x: nat, y: nat)
    requires InRange(b, was, dstWidth, dstHeight, src, srcWidth, srcHeight, i + 1) && |now| == |was|
    requires RowFits(b, now, DstOffset(b, dstWidth, i), src, SrcOffset(b, srcWidth, i))
    requires x < 2 * Stride(dstWidth) && RowStart(y, Stride(dstWidth)) + Stride(dstWidth) <= |was|
    requires Touched(b, i, x, y) ==> 0 <= SourceNibble(b, Stride(srcWidth), x, y) < 2 * |src|
    requires Touched(b, i + 1, x, y) ==> 0 <= SourceNibble(b, Stride(srcWidth), x, y) < 2 * |src|
    requires Pixel(now, Stride(dstWidth), x, y) == Target(b, was, Stride(dstWidth), src, Stride(srcWidth), i, x, y)
    ensures Pixel(RowDrawn(b, now, DstOffset(b, dstWidth, i), src, SrcOffset(b, srcWidth, i)), Stride(dstWidth), x, y)
         == Target(b, was, Stride(dstWidth), src, Stride(srcWidth), i + 1, x, y)
  {
    hide RowStart, RowDrawn, Nibble;
    var stride, d, s := Stride(dstWidth), DstOffset(b, dstWidth, i), SrcOffset(b, srcWidth, i);
    var at, to := RowStart(y, stride), RowStart(b.dy + i, stride);
    RowsApart(y, b.dy + i, stride);
    ColumnPlace(b, at, to, stride, x, y, b.dy + i);
    RowDrawnNibble(b, now, d, src, s, 2 * at + x);
    assert 2 * at + x - 2 * d + b.dx - b.dx % 2 == 2 * at + x - 2 * to;
    SameParity(b.bg, x, at);
  }

  /** A blit of `rows` rows leaves every pixel outside its rectangle as it was. */
  ghost predicate KeepsOutside(b: Blit, now: seq<bv8>, was: seq<bv8>, dstWidth: nat, dstHeight: nat, rows: nat)
    requires |now| == |was| == RowStart(dstHeight, Stride(dstWidth))
  {
    forall x: nat, y: nat ::
      x < 2 * Stride(dstWidth) && y < dstHeight && !(b.dx <= x < b.dx + b.width && b.dy <= y < b.dy + rows) ==>
        (RowsApart(y, dstHeight, Stride(dstWidth));
         Pixel(now, Stride(dstWidth), x, y) == Pixel(was, Stride(dstWidth), x, y))
  }

  /** A picture whose pixel (x, y) is not v. */
  function Other(size: nat, v: bv8): seq<bv8> { seq(size, _ => if v == 0 then 0xFF else 0) }

  /**
    A blit leaves everything outside its rectangle alone, whatever the destination holds, if and only if it has a
    column, or its column is even, or it has no rows.
    */
  lemma KeepsOutsideExactly(b: Blit, dstWidth: nat, dstHeight: nat,
                            src: seq<bv8>, srcWidth: nat, srcHeight: nat, rows: nat)
    requires Inside(b, dstWidth, dstHeight, srcWidth, srcHeight, rows)
    requires |src| == RowStart(srcHeight, Stride(srcWidth))
    ensures (forall was: seq<bv8> :: |was| == RowStart(dstHeight, Stride(dstWidth)) ==>
              KeepsOutside(b, RowsDrawn(b, was, dstWidth, dstHeight, src, srcWidth, srcHeight, rows), was,
                           dstWidth, dstHeight, rows))
            <==> (b.width >= 1 || b.dx % 2 == 0 || rows == 0)
  {
    hide RowStart, RowsDrawn, KeepsOutside;
    if b.width >= 1 || b.dx % 2 == 0 || rows == 0 {
      forall was: seq<bv8> | |was| == RowStart(dstHeight, Stride(dstWidth))
        ensures KeepsOutside(b, RowsDrawn(b, was, dstWidth, dstHeight, src, srcWidth, srcHeight, rows), was,
                             dstWidth, dstHeight, rows)
      {
        StaysInside(b, was, dstWidth, dstHeight, src, srcWidth, srcHeight, rows);
      }
    } else {
      SlipsOutside(b, dstWidth, dstHeight, src, srcWidth, srcHeight, rows);
    }
  }

  lemma StaysInside(b: Blit, was: seq<bv8>, dstWidth: nat, dstHeight: nat,
                    src: seq<bv8>, srcWidth: nat, srcHeight: nat, rows: nat)
    requires InRange(b, was, dstWidth, dstHeight, src, srcWidth, srcHeight, rows) && !(Slips(b) && rows > 0)
    ensures KeepsOutside(b, RowsDrawn(b, was, dstWidth, dstHeight, src, srcWidth, srcHeight, rows), was,
                         dstWidth, dstHeight, rows)
  {
    hide RowStart, RowsDrawn, Nibble;
    RowsShow(b, was, dstWidth, dstHeight, src, srcWidth, srcHeight, rows);
  }

  lemma SlipsOutside(b: Blit, dstWidth: nat, dstHeight: nat, src: seq<bv8>, srcWidth: nat, srcHeight: nat, rows: nat)
    requires Inside(b, dstWidth, dstHeight, srcWidth, srcHeight, rows) && Slips(b) && rows > 0
    requires |src| == RowStart(srcHeight, Stride(srcWidth))
    ensures exists was: seq<bv8> ::
              && |was| == RowStart(dstHeight, Stride(dstWidth))
              && !KeepsOutside(b, RowsDrawn(b, was, dstWidth, dstHeight, src, srcWidth, srcHeight, rows), was,
                               dstWidth, dstHeight, rows)
  {
    hide RowStart, RowsDrawn;
    var stride := Stride(dstWidth);
    PixelInRange(b, dstWidth, dstHeight, srcWidth, srcHeight, rows, b.dx, b.dy);
    var v := Nibble(src, SourceNibble(b, Stride(srcWidth), b.dx, b.dy)) | NibbleOf(b.bg, b.dx);
    var was := Other(RowStart(dstHeight, stride), v);
    RowsShow(b, was, dstWidth, dstHeight, src, srcWidth, srcHeight, rows);
    assert Pixel(was, stride, b.dx, b.dy) != v;
  }

  /** pix_blt. A negative width stands for the whole source. */
  method Blt(dst: Pixmap?, dx: nat, dy: nat, src: Pixmap?, sx: nat, sy: nat, width: int, height: int, bg: bv8)
    returns (n: int)
    requires dst != null && src != null ==>
      && dst.Valid() && src.Valid() && dst.surface != src.surface
      && var (w, h) := if width < 0 then (src.width, src.height) else (width, height);
      && InRange(Blit(dx, dy, sx, sy, w, bg), dst.surface[..], dst.width, dst.height,
                 src.surface[..], src.width, src.height, if h < 0 then 0 else h)
    modifies if dst != null then {dst.surface} else {}
    ensures dst == null || src == null ==> n == 0 && (dst != null ==> dst.surface[..] == old(dst.surface[..]))
    ensures dst != null && src != null ==>
      var (w, h) := if width < 0 then (src.width, src.height) else (width, height);
      && n == w * h
      && dst.surface[..] == RowsDrawn(Blit(dx, dy, sx, sy, w, bg), old(dst.surface[..]), dst.width, dst.height,
                                      src.surface[..], src.width, src.height, if h < 0 then 0 else h)
      && Shows(Blit(dx, dy, sx, sy, w, bg), dst.surface[..], old(dst.surface[..]), dst.width, dst.height,
               src.surface[..], src.width, src.height, if h < 0 then 0 else h)
  {
    if dst == null || src == null {
      return 0;
    }
    var w, h := width, height;
    if width < 0 {
      w, h := src.width, src.height;
    }
    RowsShow(Blit(dx, dy, sx, sy, w, bg), dst.surface[..], dst.width, dst.height,
             src.surface[..], src.width, src.height, if h < 0 then 0 else h);
    BltRows(dst, src, Blit(dx, dy, sx, sy, w, bg), if h < 0 then 0 else h);
    n := w * h;
  }

  /** The loops over the rows. */
  method BltRows(dst: Pixmap, src: Pixmap, b: Blit, height: nat)
    requires dst.Valid() && src.Valid() && dst.surface != src.surface
    requires InRange(b, dst.surface[..], dst.width, dst.height, src.surface[..], src.width, src.height, height)
    modifies dst.surface
    ensures dst.surface[..] == RowsDrawn(b, old(dst.surface[..]), dst.width, dst.height,
                                         src.surface[..], src.width, src.height, height)
  {
    hide RowStart, RowDrawn;
    ghost var was, from := dst.surface[..], src.surface[..];
    var dstStride, srcStride := (dst.width + 1) / 2, (src.width + 1) / 2;
    RowStartIsProduct(b.dy, dstStride);
    RowStartIsProduct(b.sy, srcStride);
    var d, s := b.dy * dstStride + b.dx / 2, b.sy * srcStride + b.sx / 2;
    for i := 0 to height
      invariant src.surface[..] == from
      invariant d == DstOffset(b, dst.width, i) && s == SrcOffset(b, src.width, i)
      invariant InRange(b, was, dst.width, dst.height, from, src.width, src.height, i)
      invariant dst.surface[..] == RowsDrawn(b, was, dst.width, dst.height, from, src.width, src.height, i)
    {
      RowOffsets(b, was, dst.width, dst.height, from, src.width, src.height, height, i);
      BltRow(dst.surface, src.surface, b, d, s);
      NextRow(b.dy + i, dstStride);
      NextRow(b.sy + i, srcStride);
      d := d + dstStride;
      s := s + srcStride;
    }
  }

  /** The two loop bodies, the second also for width 0. */
  method BltRow(dst: array<bv8>, src: array<bv8>, b: Blit, d: nat, s: nat)
    requires dst != src && RowFits(b, dst[..], d, src[..], s)
    modifies dst
    ensures dst[..] == RowDrawn(b, old(dst[..]), d, src[..], s)
  {
    hide EvenRow, OddRow, Put, MiddleByte;
    var w := Stride(b.width);
    ghost var was := dst[..];
    if b.dx % 2 == 0 {
      assert src[s..s + w] == src[..][s..s + w] && dst[d..d + w] == was[d..d + w];
      BltRowEven(dst, d, src, s, b.width, b.bg);
    } else if b.width == 0 {
      BltRowZero(dst, d, src, s, b.bg);
    } else {
      assert src[s..s + w] == src[..][s..s + w] && dst[d..d + b.width / 2 + 1] == was[d..d + b.width / 2 + 1];
      BltRowOdd(dst, d, src, s, b.width, b.bg);
    }
  }
}
