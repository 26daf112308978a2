/** What each action does to the modern screen, cell by cell and row by row, marks included. */
module ModernEffects {
  import opened Blocks
  import opened Numbers
  import opened Cells
  import opened AnsiParser
  import opened ModernTerminal

  function CellAt(s: ValidScreen, r: nat, c: nat): Cell
    requires r < s.rows && c < s.cols
  {
    RowsApart(r, s.rows, s.cols);
    s.cells[RowStart(r, s.cols) + c]
  }

  /** The cell (r, c) stands before the cursor; with a wrap pending the cursor stands before the next row. */
  predicate Before(s: Screen, r: nat, c: nat) { r < s.row || (r == s.row && c < s.col) }

  /** ED 1 blanks one cell more: the cursor's, which with a wrap pending is the first of the next row. */
  predicate UpToCursor(s: Screen, r: nat, c: nat) {
    || Before(s, r, c)
    || (r == s.row && c == s.col)
    || (s.col == s.cols && r == s.row + 1 && c == 0)
  }

  lemma CellOrder(s: ValidScreen, r: nat, c: nat)
    requires r < s.rows && c < s.cols
    ensures var i := RowStart(r, s.cols) + c;
            && i < |s.cells|
            && (i < CursorIndex(s) <==> Before(s, r, c))
            && (i <= CursorIndex(s) <==> UpToCursor(s, r, c))
  {
    hide RowStart;
    RowsApart(r, s.rows, s.cols);
    RowsApart(r, s.row, s.cols);
    RowsApart(r, s.row + 1, s.cols);
    NextRow(s.row, s.cols);
  }

  /**
    ED, cell by cell. Mode 0 blanks from the cursor on, mode 1 up to and with the cursor's cell, mode 2 everything,
    and no other mode anything. Only mode 2 moves the cursor, home.
    */
  lemma EraseCell(s: ValidScreen, mode: nat, r: nat, c: nat)
    requires r < s.rows && c < s.cols
    ensures var t := Apply(s, EraseDisplay(mode));
            && CellAt(t, r, c) == (if mode == 2 || (mode == 0 && !Before(s, r, c)) || (mode == 1 && UpToCursor(s, r, c))
                                   then EMPTY else CellAt(s, r, c))
            && (t.row, t.col) == (if mode == 2 then (0, 0) else (s.row, s.col))
            && (t.dirty[r] <==> s.dirty[r] || mode == 2 || (mode == 0 && r >= s.row) || (mode == 1 && r <= s.row))
  {
    hide RowStart, Put;
    CellOrder(s, r, c);
    CursorIndexInPage(s);
  }

  /** Going down a row: from the last one every row moves up and a blank row, all marked, comes last. */
  lemma AdvanceCell(s: ValidScreen, r: nat, c: nat)
    requires r < s.rows && c < s.cols
    ensures var t, scrolls := AdvanceRow(s), s.row == s.rows - 1 && s.rows > 1;
            && (t.row, t.col) == (Min(s.row + 1, s.rows - 1), s.col)
            && CellAt(t, r, c) == (if !scrolls then CellAt(s, r, c)
                                   else if r == s.rows - 1 then EMPTY else CellAt(s, r + 1, c))
            && (t.dirty[r] <==> s.dirty[r] || scrolls)
  {
    hide RowStart, ShiftUp;
    FirstRow(s.cols);
    RowsApart(0, s.rows, s.cols);
    RowsApart(r, s.rows, s.cols);
    RowsApart(r, s.rows - 1, s.cols);
    NextRow(s.rows - 1, s.cols);
    if r < s.rows - 1 {
      NextRow(r, s.cols);
      RowsApart(r + 1, s.rows, s.cols);
    }
  }

  /** Control characters move the cursor; a TAB with no stop left in the row goes to the start of the next. */
  lemma ControlCharacter(s: ValidScreen, c: char)
    requires c as int < 32
    ensures var stop := (s.col / 8 + 1) * 8;
            Apply(s, Print(c)) ==
            if c as int == 13 then s.(col := 0)
            else if c as int == 10 then AdvanceRow(s)
            else if c as int == 8 then s.(col := Max(s.col - 1, 0))
            else if c as int == 9 then (if stop < s.cols then s.(col := stop) else AdvanceRow(s).(col := 0))
            else s
  {
    hide AdvanceRow;
    assert (s.col + 8) / 8 == s.col / 8 + 1;
  }

  /** Where a character goes: with a wrap pending to the start of the next row. */
  function Ready(s: ValidScreen): ValidScreen {
    if s.col == s.cols then AdvanceRow(s).(col := 0) else s
  }

  /** Any other character fills the cursor's cell, marks its row and moves the cursor on. */
  lemma CharacterCell(s: ValidScreen, c: char, r: nat, k: nat)
    requires c as int >= 32 && r < s.rows && k < s.cols
    ensures var t, u := Apply(s, Print(c)), Ready(s);
            && (t.row, t.col) == (u.row, u.col + 1)
            && CellAt(t, r, k) == (if r == u.row && k == u.col then Cell(c, 0) else CellAt(u, r, k))
            && (t.dirty[r] <==> u.dirty[r] || r == u.row)
  {
    hide RowStart, AdvanceRow;
    CursorIndexInPage(Ready(s));
    RowsApart(r, Ready(s).row, s.cols);
    RowsApart(r, s.rows, s.cols);
  }

  /** CUP goes to its cell, brought into the screen, and marks the rows it leaves and reaches; 0 counts as 1. */
  lemma MovedTo(s: ValidScreen, row: nat, col: nat, r: nat)
    requires r < s.rows
    ensures var t := Apply(s, CursorMove(row, col));
            && (t.row, t.col) == (Min(Max(row, 1), s.rows) - 1, Min(Max(col, 1), s.cols) - 1)
            && t.cells == s.cells && (t.dirty[r] <==> s.dirty[r] || r == s.row || r == t.row)
  {
  }

  /** A new screen is blank, its cursor home, all its rows marked. */
  lemma NewScreen(rows: nat, cols: nat, r: nat, c: nat)
    requires r < rows && c < cols
    ensures var s := Initial(rows, cols);
            CellAt(s, r, c) == EMPTY && s.dirty[r] && s == Screen(rows, cols, 0, 0, s.cells, s.dirty)
  {
    RowsApart(r, rows, cols);
  }
}
