/**
  The modern engine as terminal/terminal_session.hpp keeps it: the grid, the cursor, the dirty rows and
  the parser's state are fields updated by the handlers. Every handler is proved against ModernTerminal,
  the parser loop against AnsiParser.
  */
module TerminalSession {
  import opened Blocks
  import opened Cells
  import opened AnsiParser
  import opened ModernTerminal
  import opened Pixmaps
  import Rendering
  import FR = FontRenderer

  class Session {
    const rows: nat
    const cols: nat
    var cursorRow: nat
    var cursorCol: nat
    var cells: seq<Cell>
    var dirtyRows: seq<bool>
    var mode: Mode            // state_
    var paramBuf: string

    ghost function Abs(): Screen
      reads this
    {
      Screen(rows, cols, cursorRow, cursorCol, cells, dirtyRows)
    }

    ghost function ParserState(): Parser
      reads this
    {
      Parser(mode, paramBuf)
    }

    ghost predicate Valid()
      reads this
    {
      ModernTerminal.Valid(Abs())
    }

    constructor (rows: int, cols: int)
      ensures Valid() && Abs() == Initial(if rows > 0 then rows else 24, if cols > 0 then cols else 80)
      ensures ParserState() == Parser(Ground, "")
    {
      var r, c := if rows > 0 then rows else 24, if cols > 0 then cols else 80;
      RowStartIsProduct(r, c);
      this.rows, this.cols := r, c;
      cursorRow, cursorCol := 0, 0;
      cells := seq(r * c, _ => EMPTY);
      dirtyRows := seq(r, _ => true);
      mode, paramBuf := Ground, "";
      new;
      assert cells == Fill(RowStart(r, c), EMPTY);
      assert dirtyRows == Fill(r, true);
    }

    method MarkRowDirty(row: int)
      requires Valid()
      modifies this`dirtyRows
      ensures Valid()
      ensures Abs() == if 0 <= row < rows then MarkRow(old(Abs()), row) else old(Abs())
    {
      if row >= 0 && row < rows {
        dirtyRows := dirtyRows[row := true];
      }
    }

    /** The loops `for (r = first; r < last; ++r) mark_row_dirty(r)`. */
    method MarkRowsDirty(first: nat, last: nat)
      requires Valid() && first <= last <= rows
      modifies this`dirtyRows
      ensures Valid()
      ensures Abs() == old(Abs()).(dirty := Put(old(dirtyRows), first, Fill(last - first, true)))
    {
      hide RowStart;
      for r := first to last
        invariant Valid() && dirtyRows == Put(old(dirtyRows), first, Fill(r - first, true))
      {
        MarkRowDirty(r);
      }
    }

    /** take_dirty_rows */
    method TakeDirtyRows() returns (result: seq<bool>)
      requires Valid()
      modifies this`dirtyRows
      ensures Valid() && result == old(dirtyRows) && |result| == rows
      ensures Abs() == old(Abs()).(dirty := Fill(rows, false))
    {
      result := dirtyRows;
      dirtyRows := Fill(rows, false);
    }

    method MarkAllDirty()
      requires Valid()
      modifies this`dirtyRows
      ensures Valid() && Abs() == old(Abs()).(dirty := Fill(rows, true))
    {
      dirtyRows := Fill(rows, true);
    }

    /** The loops that blank the cells first..last-1. */
    method BlankCells(first: nat, last: nat)
      requires Valid() && first <= last <= |cells|
      modifies this`cells
      ensures Valid() && Abs() == old(Abs()).(cells := Put(old(cells), first, Fill(last - first, EMPTY)))
    {
      hide RowStart;
      for i := first to last
        invariant Valid() && cells == Put(old(cells), first, Fill(i - first, EMPTY))
      {
        cells := cells[i := EMPTY];
      }
    }

    /** scroll_up */
    method ScrollUp()
      requires Valid()
      modifies this`cells, this`dirtyRows
      ensures Valid() && Abs() == ScrollScreen(old(Abs()))
    {
      hide RowStart, Put;
      if rows <= 1 {
        return;
      }
      EraseForms(Abs());
      FirstRow(cols);
      RowsApart(0, rows, cols);
      NextRow(rows - 1, cols);
      var stride, last := cols, Offset(rows - 1, cols);
      cells := Put(cells, 0, cells[stride..stride + last]);
      BlankCells(last, last + cols);
      MarkRowsDirty(0, rows);
    }

    method AdvanceRow()
      requires Valid()
      modifies this`cursorRow, this`cells, this`dirtyRows
      ensures Valid() && Abs() == ModernTerminal.AdvanceRow(old(Abs()))
    {
      if cursorRow + 1 < rows {
        cursorRow := cursorRow + 1;
      } else {
        ScrollUp();
      }
    }

    method OnCursorMove(row: nat, col: nat)
      requires Valid()
      modifies this`cursorRow, this`cursorCol, this`dirtyRows
      ensures Valid() && Abs() == MoveTo(old(Abs()), row, col)
    {
      var targetRow := if row > 0 then row - 1 else 0;
      var targetCol := if col > 0 then col - 1 else 0;
      if targetRow >= rows {
        targetRow := rows - 1;
      }
      if targetCol >= cols {
        targetCol := cols - 1;
      }
      MarkRowDirty(cursorRow);
      cursorRow := targetRow;
      cursorCol := targetCol;
      MarkRowDirty(cursorRow);
    }

    /** What the loops of on_erase_display leave, in the words of ModernTerminal. */
    lemma EraseForms(s: Screen)
      requires ModernTerminal.Valid(s)
      ensures Put(s.cells, 0, Fill(|s.cells|, EMPTY)) == Fill(|s.cells|, EMPTY)
      ensures Put(s.dirty, 0, Fill(s.rows, true)) == Fill(s.rows, true)
      ensures Put(s.dirty, s.row, Fill(s.rows - s.row, true)) == MarkedRows(s, 0)
      ensures Put(s.dirty, 0, Fill(s.row + 1, true)) == MarkedRows(s, 1)
    {
      hide RowStart;
    }

    method OnEraseDisplay(mode: nat)
      requires Valid()
      modifies this`cursorRow, this`cursorCol, this`cells, this`dirtyRows
      ensures Valid() && Abs() == EraseScreen(old(Abs()), mode)
    {
      hide RowStart, Offset, Put;
      CursorIndexInPage(Abs());
      EraseForms(Abs());
      if mode == 2 {
        BlankCells(0, |cells|);
        cursorRow := 0;
        cursorCol := 0;
        MarkRowsDirty(0, rows);
      } else if mode == 0 {
        BlankCells(Offset(cursorRow, cols) + cursorCol, |cells|);
        MarkRowsDirty(cursorRow, rows);
      } else if mode == 1 {
        var end := Offset(cursorRow, cols) + cursorCol;
        BlankCells(0, if end < |cells| then end + 1 else |cells|);
        MarkRowsDirty(0, cursorRow + 1);
      }
    }

    method OnPrintChar(c: char)
      requires Valid()
      modifies this`cursorRow, this`cursorCol, this`cells, this`dirtyRows
      ensures Valid() && Abs() == PrintChar(old(Abs()), c)
    {
      hide RowStart, Offset, ModernTerminal.AdvanceRow;
      if c == '\r' {
        cursorCol := 0;
      } else if c == '\n' {
        AdvanceRow();
      } else if c == '\U{08}' {
        if cursorCol > 0 {
          cursorCol := cursorCol - 1;
        }
      } else if c == '\t' {
        var nextTab := (cursorCol + 8) / 8 * 8;
        if nextTab >= cols {
          AdvanceRow();
          cursorCol := 0;
        } else {
          cursorCol := nextTab;
        }
      } else if c as int >= 32 {
        if cursorCol >= cols {
          AdvanceRow();
          cursorCol := 0;
        }
        CursorIndexInPage(Abs());
        cells := cells[Offset(cursorRow, cols) + cursorCol := Cell(c, 0)];
        MarkRowDirty(cursorRow);
        cursorCol := cursorCol + 1;
      }
    }

    /** render, with the cursor; a caller that passes no rows stands for one that passes them all. */
    method Render(dst: OwnedPixmap, font: FR.FontRenderer, dirty: seq<bool>)
      requires Valid() && dst.Valid() && font.Valid() && |dirty| == rows
      modifies dst
      ensures dst.Valid()
      ensures dst.Abs() == Rendering.Render(old(dst.Abs()), font.Abs(), Abs(), dirty)
    {
      hide RowStart, ModernTerminal.Valid, Rendering.RenderCells, RowCells;
      for r := 0 to rows
        invariant dst.Valid()
        invariant dst.Abs() == Rendering.RenderRows(old(dst.Abs()), font.Abs(), Abs(), dirty, r)
      {
        if dirty[r] {
          RenderRow(dst, font, r);
        }
      }
    }

    method RenderRow(dst: OwnedPixmap, font: FR.FontRenderer, r: nat)
      requires Valid() && dst.Valid() && font.Valid() && r < rows
      modifies dst
      ensures dst.Valid()
      ensures dst.Abs() == Rendering.RenderCells(old(dst.Abs()), font.Abs(), RowCells(Abs(), r), r, cols,
                                                 Rendering.InvertedAt(Abs(), r))
    {
      hide RowStart, Rendering.DrawChar;
      RowStartIsProduct(r, font.height);
      RowsApart(r, rows, cols);
      var y := r * font.height;
      var line := RowCells(Abs(), r);
      for c := 0 to cols
        invariant dst.Valid()
        invariant dst.Abs() == Rendering.RenderCells(old(dst.Abs()), font.Abs(), line, r, c,
                                                     Rendering.InvertedAt(Abs(), r))
      {
        RowStartIsProduct(c, font.width);
        var x := c * font.width;
        var ch := cells[Offset(r, cols) + c].ch;
        var isCursor := r == cursorRow && c == cursorCol;
        var drawn := font.DrawChar(dst, x, y, ch as nat, if isCursor then 0x0F else 0, if isCursor then 0 else 0x0F);
      }
    }

    /** The virtual calls of the parser. */
    method Handle(a: Action)
      requires Valid()
      modifies this`cursorRow, this`cursorCol, this`cells, this`dirtyRows
      ensures Valid() && Abs() == Apply(old(Abs()), a)
    {
      match a
      case Print(c) => OnPrintChar(c);
      case CursorMove(row, col) => OnCursorMove(row, col);
      case EraseDisplay(mode) => OnEraseDisplay(mode);
    }

    /** feed_input: the loop of AnsiParser::feed with this session as handler. */
    method FeedInput(input: string)
      requires Valid()
      modifies this
      ensures Valid()
      ensures ParserState() == Feed(old(ParserState()), input).0
      ensures Abs() == ApplyAll(old(Abs()), Feed(old(ParserState()), input).1)
    {
      hide FeedChar, Apply, ModernTerminal.Valid;
      ghost var done: seq<Action> := [];
      assert input[0..] == input;
      for i := 0 to |input|
        invariant Valid()
        invariant Feed(old(ParserState()), input).0 == Feed(ParserState(), input[i..]).0
        invariant Feed(old(ParserState()), input).1 == done + Feed(ParserState(), input[i..]).1
        invariant Abs() == ApplyAll(old(Abs()), done)
      {
        var (next, actions) := FeedChar(Parser(mode, paramBuf), input[i]);
        FeedCharActions(Parser(mode, paramBuf), input[i]);
        ghost var rest := Feed(next, input[i + 1..]).1;
        assert input[i..][1..] == input[i + 1..] && done + (actions + rest) == (done + actions) + rest;
        mode, paramBuf := next.mode, next.params;
        if actions != [] {
          Handle(actions[0]);
          assert actions == [actions[0]] && actions[1..] == [];
          ApplyAllConcat(old(Abs()), done, actions);
        } else {
          assert done + actions == done;
        }
        done := done + actions;
      }
      assert done + [] == done;
    }

    /** The parser makes at most one call for a character. */
    lemma FeedCharActions(p: Parser, c: char)
      ensures |FeedChar(p, c).1| <= 1
    {
    }
  }
}
