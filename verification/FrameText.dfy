/** From a font's text and the grid to the pixels of the panel. */
module FrameText {
  import opened Blocks
  import opened Pixmaps
  import opened ModernTerminal
  import opened Rendering
  import opened GlyphPictures
  import opened FramePipeline

  /**
    After a frame the panel shows the text of every row that was dirty: point (i, j) of a cell's picture is black,
    the rest of the cell white, and the other way round in the cursor's cell alone.
    */
  lemma FrameShowsText(a: App, stale: set<nat>, row: nat, c: nat, p: Shape, i: nat, j: nat)
    requires Good(a, stale) && !a.help
    requires row < a.screen.rows && c < a.screen.cols && a.screen.dirty[row]
    requires Depicts(a.font, RowCells(a.screen, row)[c].ch as nat, p) && i < a.font.height && j < a.font.width
    requires a.canvas.On(RowStart(c, a.font.width) + j, RowStart(row, a.font.height) + i)
    ensures Frame(a).panel(RowStart(c, a.font.width) + j, RowStart(row, a.font.height) + i) ==
            if p(i, j) != (row == a.screen.row && c == a.screen.col) then 0 else 0x0F
  {
    hide RowStart, Get, RenderRows, DirtyRect, Depicts, CellShown, SameIn, InDirtyRow, Coherent, RowCells;
    var s, f := Taken(a.screen), a.font;
    var x, y := RowStart(c, f.width), RowStart(row, f.height);
    if DirtyRect(a.screen.dirty, f.height, a.canvas.width).IsEmpty() {
      EmptyStrip(f, a.screen.dirty, a.canvas.width);
    } else {
      var drawn := Render(a.canvas, f, s, a.screen.dirty);
      FrameKeepsPanel(a);
      RenderedRows(a.canvas, f, s, a.screen.dirty, s.rows);
      SameLine(a.screen, row);
      assert RowShown(drawn, f, RowCells(s, row), row, InvertedAt(s, row));
      CellShowsShape(drawn, f, RowCells(s, row)[c].ch, x, y, c == InvertedAt(s, row), p, i, j);
    }
  }

  lemma SameLine(s: ValidScreen, row: nat)
    requires row < s.rows
    ensures RowCells(Taken(s), row) == RowCells(s, row)
  {
  }
}
