/** Glyphs as pictures: a picture printed as a line of a hex font, loaded and drawn, is the picture. */
module GlyphPictures {
  import opened Blocks
  import opened Options
  import opened Pixmaps
  import opened Fonts
  import opened Rendering

  /** Which points of a glyph are set, by row and column. */
  type Shape = (nat, nat) -> bool

  function Weight(on: bool, w: bv8): bv8 { if on then w else 0 }

  /** The b-th byte of a row: eight columns. */
  function ShapeByte(p: Shape, row: nat, b: nat): bv8 {
    Weight(p(row, 8 * b), 128) | Weight(p(row, 8 * b + 1), 64) | Weight(p(row, 8 * b + 2), 32)
    | Weight(p(row, 8 * b + 3), 16) | Weight(p(row, 8 * b + 4), 8) | Weight(p(row, 8 * b + 5), 4)
    | Weight(p(row, 8 * b + 6), 2) | Weight(p(row, 8 * b + 7), 1)
  }

  function ShapeRow(p: Shape, row: nat, n: nat): (bytes: seq<bv8>)
    ensures |bytes| == n
  {
    seq(n, b requires 0 <= b < n => ShapeByte(p, row, b))
  }

  /** The first rows of a picture, n bytes each. */
  function ShapeBytes(p: Shape, rows: nat, n: nat): (bytes: seq<bv8>)
    ensures |bytes| == RowStart(rows, n)
  {
    if rows == 0 then [] else ShapeBytes(p, rows - 1, n) + ShapeRow(p, rows - 1, n)
  }

  lemma {:induction false} ShapeByteAt(p: Shape, rows: nat, n: nat, i: nat, b: nat)
    requires i < rows && b < n
    ensures RowStart(i, n) + b < RowStart(rows, n)
    ensures ShapeBytes(p, rows, n)[RowStart(i, n) + b] == ShapeByte(p, i, b)
  {
    hide ShapeByte;
    if i < rows - 1 {
      ShapeByteAt(p, rows - 1, n, i, b);
    }
  }

  /** Every column is in the bit drawn for it. */
  lemma ShapeBit(p: Shape, row: nat, j: nat)
    ensures Bit(ShapeByte(p, row, j / 8), j) == p(row, j)
  {
    var b := j / 8;
    assert j == 8 * b + j % 8;
  }

  /** The glyph of a picture inks exactly its points. */
  lemma ShapeInk(f: Font, p: Shape, i: nat, j: nat, fg: bv8, bg: bv8)
    requires i < f.height && j < f.width
    ensures Ink(f, ShapeBytes(p, f.height, f.BytesPerRow()), i, j, fg, bg) == if p(i, j) then fg else bg
  {
    hide ShapeByte, Bit, ShapeBytes, RowStart;
    ShapeByteAt(p, f.height, f.BytesPerRow(), i, j / 8);
    ShapeBit(p, i, j);
  }

  /** The glyph loaded for cp is the picture. */
  ghost predicate Depicts(f: ValidFont, cp: nat, p: Shape) {
    f.Glyph(cp) == Some(ShapeBytes(p, f.height, f.BytesPerRow()))
  }

  /** A font printed with the picture, as the last one for its codepoint, is loaded with it. */
  lemma LoadedShape(f: ValidFont, entries: seq<Entry>, k: nat, p: Shape)
    requires forall e :: e in entries ==> Printable(e, f.GlyphBytes())
    requires k < |entries| && LastFor(entries, k, entries[k].cp)
    requires entries[k].bitmap == ShapeBytes(p, f.height, f.BytesPerRow())
    ensures Load(f, PrintFont(entries)).0.Valid() && Depicts(Load(f, PrintFont(entries)).0, entries[k].cp, p)
  {
    hide ShapeBytes, Load, PrintFont, LastFor, RowStart, ShapeByte;
    LoadPrinted(f, entries, entries[k].cp);
  }

  lemma ShapeDrawn(f: ValidFont, cp: nat, p: Shape, r: Surface, x: int, y: int, fg: bv8, bg: bv8, i: nat, j: nat)
    requires Depicts(f, cp, p) && i < f.height && j < f.width && r.On(x + j, y + i)
    ensures Get(DrawChar(r, f, x, y, cp, fg, bg), x + j, y + i) == (if p(i, j) then fg else bg) & 0x0F
  {
    hide ShapeBytes, RowStart, ShapeByte, DrawChar, Get, Ink;
    DrawCharPixel(r, f, x, y, cp, fg, bg, x + j, y + i);
    ShapeInk(f, p, i, j, fg, bg);
  }

  /**
    A picture printed, loaded and drawn at (x, y): the pixel at row i and column j of its box takes the foreground
    exactly when the picture is set there.
    */
  lemma PictureRoundTrip(f: ValidFont, entries: seq<Entry>, k: nat, p: Shape, r: Surface, x: int, y: int,
                         fg: bv8, bg: bv8, i: nat, j: nat)
    requires forall e :: e in entries ==> Printable(e, f.GlyphBytes())
    requires k < |entries| && LastFor(entries, k, entries[k].cp)
    requires entries[k].bitmap == ShapeBytes(p, f.height, f.BytesPerRow())
    requires i < f.height && j < f.width && r.On(x + j, y + i)
    ensures var f' := Load(f, PrintFont(entries)).0;
            f'.Valid() && Get(DrawChar(r, f', x, y, entries[k].cp, fg, bg), x + j, y + i) ==
                          (if p(i, j) then fg else bg) & 0x0F
  {
    hide ShapeBytes, Load, PrintFont, LastFor, DrawChar, Get, Depicts, Printable;
    LoadedShape(f, entries, k, p);
    ShapeDrawn(Load(f, PrintFont(entries)).0, entries[k].cp, p, r, x, y, fg, bg, i, j);
  }

  /** A cell shown on a canvas shows the picture of its character: black on white, or inverted. */
  lemma CellShowsShape(r: Surface, f: ValidFont, ch: char, x: int, y: int, inverted: bool, p: Shape, i: nat, j: nat)
    requires Depicts(f, ch as nat, p) && CellShown(r, f, ch, x, y, inverted)
    requires i < f.height && j < f.width && r.On(x + j, y + i)
    ensures Get(r, x + j, y + i) == if p(i, j) != inverted then 0 else 0x0F
  {
    hide ShapeBytes, RowStart, ShapeByte, Get, Ink;
    ShapeInk(f, p, i, j, if inverted then 0x0F else 0, if inverted then 0 else 0x0F);
    assert Box(f, x, y).Contains(x + j, y + i);
  }
}
