/** Drawing glyphs and cells on the canvas, pixel by pixel, and what the picture shows afterwards. */
module Rendering {
  import opened Blocks
  import opened Cells
  import opened Geometry
  import opened Pixmaps
  import opened Fonts
  import ModernTerminal

  // FontRenderer::draw_char (graphics/font_renderer.hpp) and TerminalSession::render
  // (terminal/terminal_session.hpp), in the order of their loops.

  /** 1 << (7 - j % 8): the leftmost column of a byte is its highest bit. */
  function Mask(j: nat): bv8 {
    match j % 8
    case 0 => 0x80
    case 1 => 0x40
    case 2 => 0x20
    case 3 => 0x10
    case 4 => 0x08
    case 5 => 0x04
    case 6 => 0x02
    case _ => 0x01
  }

  /** The bit of column j in its byte of a glyph row. */
  predicate Bit(b: bv8, j: nat) { b & Mask(j) != 0 }

  /** The colour a glyph gives the pixel in its row i and column j. */
  function Ink(f: Font, g: seq<bv8>, i: nat, j: nat, fg: bv8, bg: bv8): (c: bv8)
    requires |g| == f.GlyphBytes() && i < f.height && j < f.width
    ensures c == fg || c == bg
  {
    RowsApart(i, f.height, f.BytesPerRow());
    if Bit(g[RowStart(i, f.BytesPerRow()) + j / 8], j) then fg else bg
  }

  /** The first n pixels of row i of a glyph drawn at (x, y). */
  function DrawRow(r: Surface, f: Font, g: seq<bv8>, x: int, y: int, i: nat, n: nat, fg: bv8, bg: bv8): (r': Surface)
    requires |g| == f.GlyphBytes() && i < f.height && n <= f.width
    ensures r' == r.(bytes := r'.bytes)
  {
    if n == 0 then r
    else Set(DrawRow(r, f, g, x, y, i, n - 1, fg, bg), x + n - 1, y + i, Ink(f, g, i, n - 1, fg, bg))
  }

  function DrawRows(r: Surface, f: Font, g: seq<bv8>, x: int, y: int, n: nat, fg: bv8, bg: bv8): (r': Surface)
    requires |g| == f.GlyphBytes() && n <= f.height
    ensures r' == r.(bytes := r'.bytes)
  {
    if n == 0 then r
    else DrawRow(DrawRows(r, f, g, x, y, n - 1, fg, bg), f, g, x, y, n - 1, f.width, fg, bg)
  }

  /** draw_char: nothing when the glyph is missing. */
  function DrawChar(r: Surface, f: ValidFont, x: int, y: int, cp: nat, fg: bv8, bg: bv8): (r': Surface)
    ensures r' == r.(bytes := r'.bytes)
  {
    match f.Glyph(cp)
    case None => r
    case Some(g) => DrawRows(r, f, g, x, y, f.height, fg, bg)
  }

  lemma {:induction false} DrawRowPixel(r: Surface, f: Font, g: seq<bv8>, x: int, y: int, i: nat, n: nat,
                                        fg: bv8, bg: bv8, px: int, py: int)
    requires |g| == f.GlyphBytes() && i < f.height && n <= f.width
    ensures Get(DrawRow(r, f, g, x, y, i, n, fg, bg), px, py) ==
            if r.On(px, py) && py == y + i && x <= px < x + n then Ink(f, g, i, px - x, fg, bg) & 0x0F
            else Get(r, px, py)
  {
    hide Get, Set, Ink, RowStart;
    if n > 0 {
      DrawRowPixel(r, f, g, x, y, i, n - 1, fg, bg, px, py);
      GetSet(DrawRow(r, f, g, x, y, i, n - 1, fg, bg), x + n - 1, y + i, Ink(f, g, i, n - 1, fg, bg), px, py);
    }
  }

  lemma {:induction false} DrawRowsPixel(r: Surface, f: Font, g: seq<bv8>, x: int, y: int, n: nat,
                                         fg: bv8, bg: bv8, px: int, py: int)
    requires |g| == f.GlyphBytes() && n <= f.height
    ensures Get(DrawRows(r, f, g, x, y, n, fg, bg), px, py) ==
            if r.On(px, py) && Rect(x, y, f.width, n).Contains(px, py)
            then Ink(f, g, py - y, px - x, fg, bg) & 0x0F else Get(r, px, py)
  {
    hide Get, DrawRow, Ink, RowStart;
    if n > 0 {
      DrawRowsPixel(r, f, g, x, y, n - 1, fg, bg, px, py);
      DrawRowPixel(DrawRows(r, f, g, x, y, n - 1, fg, bg), f, g, x, y, n - 1, f.width, fg, bg, px, py);
    }
  }

  /** The box of a glyph drawn at (x, y). */
  function Box(f: Font, x: int, y: int): Rect { Rect(x, y, f.width, f.height) }

  /** A glyph changes the pixels of its box that lie on the canvas, and these to its own picture. */
  lemma DrawCharPixel(r: Surface, f: ValidFont, x: int, y: int, cp: nat, fg: bv8, bg: bv8, px: int, py: int)
    ensures Get(DrawChar(r, f, x, y, cp, fg, bg), px, py) ==
            if f.Glyph(cp).Some? && r.On(px, py) && Box(f, x, y).Contains(px, py)
            then Ink(f, f.Glyph(cp).value, py - y, px - x, fg, bg) & 0x0F else Get(r, px, py)
  {
    hide Get, DrawRows, Ink, RowStart;
    if f.Glyph(cp).Some? {
      DrawRowsPixel(r, f, f.Glyph(cp).value, x, y, f.height, fg, bg, px, py);
    }
  }

  // What a canvas shows.

  /** The glyph of ch, if it has one, stands at (x, y), as far as the canvas reaches: black on white, or inverted. */
  ghost predicate CellShown(r: Surface, f: ValidFont, ch: char, x: int, y: int, inverted: bool)
  {
    f.Glyph(ch as nat).Some? ==>
      forall px, py :: r.On(px, py) && Box(f, x, y).Contains(px, py) ==>
        Get(r, px, py) == Ink(f, f.Glyph(ch as nat).value, py - y, px - x,
                              if inverted then 0x0F else 0, if inverted then 0 else 0x0F)
  }

  /** The first n cells of a line are shown in their row, all but number k not inverted. */
  ghost predicate CellsShown(r: Surface, f: ValidFont, line: seq<Cell>, row: nat, n: nat, k: nat)
    requires n <= |line|
  {
    forall c: nat :: c < n ==>
      CellShown(r, f, line[c].ch, RowStart(c, f.width), RowStart(row, f.height), c == k)
  }

  ghost predicate RowShown(r: Surface, f: ValidFont, line: seq<Cell>, row: nat, k: nat)
  {
    CellsShown(r, f, line, row, |line|, k)
  }

  /** Every pixel outside the box is the same. */
  ghost predicate SameOutside(a: Surface, b: Surface, box: Rect)
  {
    && a.width == b.width && a.height == b.height
    && forall px, py :: !box.Contains(px, py) ==> Get(a, px, py) == Get(b, px, py)
  }

  /** The pixels of the first n cells of a row. */
  function Band(f: Font, row: nat, n: nat): Rect {
    Rect(0, RowStart(row, f.height), RowStart(n, f.width), f.height)
  }

  ghost predicate SameIn(a: Surface, b: Surface, box: Rect)
  {
    && a.width == b.width && a.height == b.height
    && forall px, py :: box.Contains(px, py) ==> Get(a, px, py) == Get(b, px, py)
  }

  lemma CellStaysShown(a: Surface, b: Surface, f: ValidFont, ch: char, x: int, y: int, inverted: bool)
    requires SameIn(a, b, Box(f, x, y)) && CellShown(a, f, ch, x, y, inverted)
    ensures CellShown(b, f, ch, x, y, inverted)
  {
    hide Get, Ink;
  }

  lemma RowStaysShown(a: Surface, b: Surface, f: ValidFont, line: seq<Cell>, row: nat, n: nat, k: nat)
    requires n <= |line|
    requires SameIn(a, b, Band(f, row, n)) && CellsShown(a, f, line, row, n, k)
    ensures CellsShown(b, f, line, row, n, k)
  {
    hide Get, CellShown, RowStart;
    forall c: nat | c < n
      ensures CellShown(b, f, line[c].ch, RowStart(c, f.width), RowStart(row, f.height), c == k)
    {
      RowsApart(c, n, f.width);
      CellStaysShown(a, b, f, line[c].ch, RowStart(c, f.width), RowStart(row, f.height), c == k);
    }
  }

  lemma DrawnCell(r: Surface, f: ValidFont, ch: char, x: int, y: int, inverted: bool)
    ensures var r' := DrawChar(r, f, x, y, ch as nat, if inverted then 0x0F else 0, if inverted then 0 else 0x0F);
            CellShown(r', f, ch, x, y, inverted) && SameOutside(r, r', Box(f, x, y))
  {
    hide Get, DrawChar, RowStart;
    var fg: bv8, bg: bv8 := if inverted then 0x0F else 0, if inverted then 0 else 0x0F;
    var r' := DrawChar(r, f, x, y, ch as nat, fg, bg);
    forall px, py
      ensures Get(r', px, py) ==
              if f.Glyph(ch as nat).Some? && r.On(px, py) && Box(f, x, y).Contains(px, py)
              then Ink(f, f.Glyph(ch as nat).value, py - y, px - x, fg, bg) else Get(r, px, py)
    {
      DrawCharPixel(r, f, x, y, ch as nat, fg, bg, px, py);
      assert fg & 0x0F == fg && bg & 0x0F == bg;
    }
  }

  // render

  /** The inverted column of a row: the cursor's column in the cursor's row, none (cols) elsewhere. */
  function InvertedAt(s: ModernTerminal.Screen, row: nat): nat {
    if row == s.row then s.col else s.cols
  }

  /** The first n cells of a row, left to right. */
  function RenderCells(r: Surface, f: ValidFont, line: seq<Cell>, row: nat, n: nat, k: nat): (r': Surface)
    requires n <= |line|
    ensures r' == r.(bytes := r'.bytes)
  {
    if n == 0 then r
    else
      DrawChar(RenderCells(r, f, line, row, n - 1, k), f, RowStart(n - 1, f.width), RowStart(row, f.height),
               line[n - 1].ch as nat, if n - 1 == k then 0x0F else 0, if n - 1 == k then 0 else 0x0F)
  }

  /** The first n rows, those that are not dirty left out. */
  function RenderRows(r: Surface, f: ValidFont, s: ModernTerminal.ValidScreen, dirty: seq<bool>, n: nat): (r': Surface)
    requires |dirty| == s.rows && n <= s.rows
    ensures r' == r.(bytes := r'.bytes)
  {
    if n == 0 then r
    else
      var before := RenderRows(r, f, s, dirty, n - 1);
      if dirty[n - 1]
      then RenderCells(before, f, ModernTerminal.RowCells(s, n - 1), n - 1, s.cols, InvertedAt(s, n - 1))
      else before
  }

  /** render */
  function Render(r: Surface, f: ValidFont, s: ModernTerminal.ValidScreen, dirty: seq<bool>): (r': Surface)
    requires |dirty| == s.rows
    ensures r' == r.(bytes := r'.bytes)
  {
    RenderRows(r, f, s, dirty, s.rows)
  }

  lemma SameTransitive(a: Surface, b: Surface, c: Surface, box: Rect)
    requires SameOutside(a, b, box) && SameOutside(b, c, box)
    ensures SameOutside(a, c, box)
  {
    hide Get;
  }

  lemma SameOutsideLarger(a: Surface, b: Surface, box: Rect, larger: Rect)
    requires SameOutside(a, b, box) && Within(box, larger)
    ensures SameOutside(a, b, larger)
  {
    hide Get;
  }

  lemma SameApart(a: Surface, b: Surface, box: Rect, other: Rect)
    requires SameOutside(a, b, box)
    requires other.x + other.width <= box.x || other.y + other.height <= box.y || box.y + box.height <= other.y
    ensures SameIn(a, b, other)
  {
    hide Get;
  }

  lemma {:induction false} RenderedCells(r: Surface, f: ValidFont, line: seq<Cell>, row: nat, n: nat, k: nat)
    requires n <= |line|
    ensures CellsShown(RenderCells(r, f, line, row, n, k), f, line, row, n, k)
    ensures SameOutside(r, RenderCells(r, f, line, row, n, k), Band(f, row, n))
  {
    hide Get, DrawChar, RowStart, CellShown, SameOutside, SameIn;
    if n > 0 {
      var before, after := RenderCells(r, f, line, row, n - 1, k), RenderCells(r, f, line, row, n, k);
      var x, y := RowStart(n - 1, f.width), RowStart(row, f.height);
      RenderedCells(r, f, line, row, n - 1, k);
      DrawnCell(before, f, line[n - 1].ch, x, y, n - 1 == k);
      NextRow(n - 1, f.width);
      SameApart(before, after, Box(f, x, y), Band(f, row, n - 1));
      RowStaysShown(before, after, f, line, row, n - 1, k);
      SameOutsideLarger(r, before, Band(f, row, n - 1), Band(f, row, n));
      SameOutsideLarger(before, after, Box(f, x, y), Band(f, row, n));
      SameTransitive(r, before, after, Band(f, row, n));
    } else {
      SameAsItself(r, Band(f, row, 0));
    }
  }

  lemma SameAsItself(r: Surface, box: Rect)
    ensures SameOutside(r, r, box) && SameIn(r, r, box)
  {
  }

  /** The pixel lies in one of the dirty rows before row n. */
  ghost predicate InDirtyRow(f: Font, s: ModernTerminal.Screen, dirty: seq<bool>, n: nat, px: int, py: int)
    requires n <= |dirty|
  {
    exists row: nat :: row < n && dirty[row] && Band(f, row, s.cols).Contains(px, py)
  }

  /** What drawing the dirty ones among the first n rows leaves: these rows are shown, all else is as it was. */
  ghost predicate Rendered(r: Surface, r': Surface, f: ValidFont, s: ModernTerminal.ValidScreen,
                           dirty: seq<bool>, n: nat)
    requires |dirty| == s.rows && n <= s.rows
  {
    && (forall row: nat :: row < n && dirty[row] ==>
          RowShown(r', f, ModernTerminal.RowCells(s, row), row, InvertedAt(s, row)))
    && (forall row: nat :: row < s.rows && !(row < n && dirty[row]) ==> SameIn(r, r', Band(f, row, s.cols)))
    && (forall px, py :: !InDirtyRow(f, s, dirty, n, px, py) ==> Get(r, px, py) == Get(r', px, py))
  }

  lemma {:induction false} RenderedRows(r: Surface, f: ValidFont, s: ModernTerminal.ValidScreen,
                                        dirty: seq<bool>, n: nat)
    requires |dirty| == s.rows && n <= s.rows
    ensures Rendered(r, RenderRows(r, f, s, dirty, n), f, s, dirty, n)
  {
    hide Get, RenderCells, RowStart, CellShown, CellsShown, SameOutside, SameIn, ModernTerminal.RowCells;
    if n > 0 {
      RenderedRows(r, f, s, dirty, n - 1);
      if dirty[n - 1] {
        RenderedNext(r, f, s, dirty, n);
      }
    } else {
      forall row: nat | row < s.rows ensures SameIn(r, r, Band(f, row, s.cols)) {
        SameAsItself(r, Band(f, row, s.cols));
      }
    }
  }

  lemma RenderedNext(r: Surface, f: ValidFont, s: ModernTerminal.ValidScreen, dirty: seq<bool>, n: nat)
    requires |dirty| == s.rows && 0 < n <= s.rows
    requires dirty[n - 1] && Rendered(r, RenderRows(r, f, s, dirty, n - 1), f, s, dirty, n - 1)
    ensures Rendered(r, RenderRows(r, f, s, dirty, n), f, s, dirty, n)
  {
    hide Get, RenderCells, RowStart, CellShown, CellsShown, ModernTerminal.RowCells;
    var before, after := RenderRows(r, f, s, dirty, n - 1), RenderRows(r, f, s, dirty, n);
    RenderedCells(before, f, ModernTerminal.RowCells(s, n - 1), n - 1, s.cols, InvertedAt(s, n - 1));
    forall row: nat | row < s.rows && row != n - 1 ensures SameIn(before, after, Band(f, row, s.cols)) {
      RowsApart(row, n - 1, f.height);
      SameApart(before, after, Band(f, n - 1, s.cols), Band(f, row, s.cols));
    }
    forall row: nat | row < n - 1 && dirty[row]
      ensures RowShown(after, f, ModernTerminal.RowCells(s, row), row, InvertedAt(s, row))
    {
      RowStaysShown(before, after, f, ModernTerminal.RowCells(s, row), row, s.cols, InvertedAt(s, row));
    }
  }
}
