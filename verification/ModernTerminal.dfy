/**
  The screen of the modern engine (terminal/terminal_session.hpp) and what each action does to it: a grid of
  cells, a cursor that may stand one past the last column while a wrap is pending, and a mark for each row.
  */
module ModernTerminal {
  import opened Blocks
  import opened Cells
  import opened AnsiParser

  datatype Screen = Screen(
    rows: nat, cols: nat,
    row: nat, col: nat,        // the cursor; col == cols while a wrap is pending
    cells: seq<Cell>,
    dirty: seq<bool>)          // rows changed since they were last taken

  ghost predicate Valid(s: Screen) {
    && 1 <= s.rows && 1 <= s.cols
    && s.row < s.rows && s.col <= s.cols
    && |s.cells| == RowStart(s.rows, s.cols)
    && |s.dirty| == s.rows
  }

  /** A screen the engine can be in. */
  type ValidScreen = s: Screen | Valid(s)
    ghost witness Screen(1, 1, 0, 0, [EMPTY], [true])

  function Initial(rows: nat, cols: nat): ValidScreen
    requires 1 <= rows && 1 <= cols
  {
    Screen(rows, cols, 0, 0, Fill(RowStart(rows, cols), EMPTY), Fill(rows, true))
  }

  /** The index of the cursor's cell; with a wrap pending, that of the cell after the row. */
  function CursorIndex(s: Screen): nat { RowStart(s.row, s.cols) + s.col }

  lemma CursorIndexInPage(s: ValidScreen)
    ensures CursorIndex(s) <= RowStart(s.row, s.cols) + s.cols <= |s.cells|
    ensures s.col < s.cols ==> CursorIndex(s) < |s.cells|
    ensures CursorIndex(s) == |s.cells| ==> s.col == s.cols && s.row == s.rows - 1
  {
    RowsApart(s.row, s.rows, s.cols);
    if s.row < s.rows - 1 {
      RowsApart(s.row + 1, s.rows, s.cols);
      NextRow(s.row, s.cols);
    }
  }

  function MarkRow(s: ValidScreen, row: nat): (r: ValidScreen)
    requires row < s.rows
  {
    s.(dirty := s.dirty[row := true])
  }

  /** scroll_up: nothing on a screen of one row. */
  function ScrollScreen(s: ValidScreen): (r: ValidScreen)
  {
    if s.rows <= 1 then s
    else
      FirstRow(s.cols);
      RowsApart(0, s.rows, s.cols);
      s.(cells := ShiftUp(s.cells, 0, |s.cells|, s.cols, EMPTY), dirty := Fill(s.rows, true))
  }

  /** advance_row */
  function AdvanceRow(s: ValidScreen): (r: ValidScreen)
    ensures r == s.(row := r.row, cells := r.cells, dirty := r.dirty)
  {
    if s.row + 1 < s.rows then s.(row := s.row + 1) else ScrollScreen(s)
  }

  /** (col + 8) & ~7 */
  function NextTab(col: nat): nat { (col + 8) / 8 * 8 }

  function Store(s: ValidScreen, c: char): (r: ValidScreen)
    requires s.col < s.cols
    ensures r == s.(col := s.col + 1, cells := r.cells, dirty := r.dirty)
  {
    CursorIndexInPage(s);
    MarkRow(s.(cells := s.cells[CursorIndex(s) := Cell(c, 0)], col := s.col + 1), s.row)
  }

  /** on_print_char */
  function PrintChar(s: ValidScreen, c: char): (r: ValidScreen)
  {
    if c == '\r' then s.(col := 0)
    else if c == '\n' then AdvanceRow(s)
    else if c == '\U{08}' then (if s.col > 0 then s.(col := s.col - 1) else s)
    else if c == '\t' then
      (if NextTab(s.col) >= s.cols then AdvanceRow(s).(col := 0) else s.(col := NextTab(s.col)))
    else if c as int >= 32 then
      Store(if s.col >= s.cols then AdvanceRow(s).(col := 0) else s, c)
    else s
  }

  /** on_cursor_move, with 1-based coordinates that are clamped. */
  function MoveTo(s: ValidScreen, row: nat, col: nat): (r: ValidScreen)
  {
    var r1 := if row > 0 then row - 1 else 0;
    var c1 := if col > 0 then col - 1 else 0;
    var r2 := if r1 >= s.rows then s.rows - 1 else r1;
    var c2 := if c1 >= s.cols then s.cols - 1 else c1;
    MarkRow(MarkRow(s, s.row).(row := r2, col := c2), r2)
  }

  /** The indices on_erase_display blanks in modes 0 and 1. */
  function ErasedFrom(s: Screen, mode: nat): nat { if mode == 0 then CursorIndex(s) else 0 }

  function ErasedTo(s: ValidScreen, mode: nat): (to: nat)
    ensures ErasedFrom(s, mode) <= to <= |s.cells|
  {
    CursorIndexInPage(s);
    if mode == 1 && CursorIndex(s) < |s.cells| then CursorIndex(s) + 1 else |s.cells|
  }

  /** The rows it marks. */
  function MarkedRows(s: ValidScreen, mode: nat): (dirty: seq<bool>)
    ensures |dirty| == s.rows
  {
    if mode == 0 then s.dirty[..s.row] + Fill(s.rows - s.row, true)
    else Fill(s.row + 1, true) + s.dirty[s.row + 1..]
  }

  /** on_erase_display */
  function EraseScreen(s: ValidScreen, mode: nat): (r: ValidScreen)
  {
    if mode == 2 then
      s.(cells := Fill(|s.cells|, EMPTY), dirty := Fill(s.rows, true), row := 0, col := 0)
    else if mode <= 1 then
      var from, to := ErasedFrom(s, mode), ErasedTo(s, mode);
      s.(cells := Put(s.cells, from, Fill(to - from, EMPTY)), dirty := MarkedRows(s, mode))
    else s
  }

  function Apply(s: ValidScreen, a: Action): (r: ValidScreen)
    ensures r.rows == s.rows && r.cols == s.cols
  {
    match a
    case Print(c) => PrintChar(s, c)
    case CursorMove(row, col) => MoveTo(s, row, col)
    case EraseDisplay(mode) => EraseScreen(s, mode)
  }

  function ApplyAll(s: ValidScreen, actions: seq<Action>): (r: ValidScreen)
    ensures r.rows == s.rows && r.cols == s.cols
    decreases |actions|
  {
    if actions == [] then s else ApplyAll(Apply(s, actions[0]), actions[1..])
  }

  lemma {:induction false} ApplyAllConcat(s: ValidScreen, a: seq<Action>, b: seq<Action>)
    ensures ApplyAll(s, a + b) == ApplyAll(ApplyAll(s, a), b)
    decreases |a|
  {
    hide Apply, Valid;
    if a == [] {
      assert a + b == b;
    } else {
      assert (a + b)[1..] == a[1..] + b;
      ApplyAllConcat(Apply(s, a[0]), a[1..], b);
    }
  }

  /** A row of the screen that differs is marked. */
  ghost predicate ChangesMarked(s: ValidScreen, t: ValidScreen)
    requires s.rows == t.rows && s.cols == t.cols
  {
    ChangesMarkedBut(s, t, {})
  }

  /** The same of all rows but some. */
  ghost predicate ChangesMarkedBut(s: ValidScreen, t: ValidScreen, missed: set<nat>)
    requires s.rows == t.rows && s.cols == t.cols
  {
    forall r: nat :: r < s.rows && !t.dirty[r] && r !in missed ==> !s.dirty[r] && RowCells(s, r) == RowCells(t, r)
  }

  function RowCells(s: ValidScreen, r: nat): (line: seq<Cell>)
    requires r < s.rows
    ensures |line| == s.cols
  {
    RowsApart(r, s.rows, s.cols);
    Row(s.cells, s.cols, r)
  }

  /**
    The one case in which a change is not marked: ED 1 with a wrap pending blanks the first cell of the
    next row as well, but marks the rows up to the cursor's only.
    */
  ghost predicate MissesMark(s: ValidScreen, a: Action)
  {
    && a == EraseDisplay(1) && s.col == s.cols && s.row + 1 < s.rows
    && !s.dirty[s.row + 1] && RowCells(s, s.row + 1)[0] != EMPTY
  }

  /** The row an action changes without marking it, if there is one. */
  ghost function Missed(s: ValidScreen, a: Action): set<nat> {
    if MissesMark(s, a) then {s.row + 1} else {}
  }

  /** The rows so changed by some actions. */
  ghost function MissedRows(s: ValidScreen, actions: seq<Action>): set<nat>
    decreases |actions|
  {
    if actions == [] then {} else Missed(s, actions[0]) + MissedRows(Apply(s, actions[0]), actions[1..])
  }

  lemma ChangesMarkedTransitive(s: ValidScreen, t: ValidScreen, u: ValidScreen, a: set<nat>, b: set<nat>)
    requires s.rows == t.rows == u.rows && s.cols == t.cols == u.cols
    requires ChangesMarkedBut(s, t, a) && ChangesMarkedBut(t, u, b)
    ensures ChangesMarkedBut(s, u, a + b)
  {
    hide Valid, RowCells;
  }

  /** Writing over a stretch of cells leaves the rows apart from it alone. */
  lemma PutOutsideRow(cells: seq<Cell>, from: nat, block: seq<Cell>, r: nat, cols: nat)
    requires from + |block| <= |cells| && RowStart(r, cols) + cols <= |cells|
    requires RowStart(r, cols) + cols <= from || from + |block| <= RowStart(r, cols)
    ensures Row(Put(cells, from, block), cols, r) == Row(cells, cols, r)
  {
    hide RowStart;
    PutSlice(cells, from, block, RowStart(r, cols), cols);
  }

  lemma StoreMarks(s: ValidScreen, c: char)
    requires s.col < s.cols
    ensures ChangesMarked(s, Store(s, c))
  {
    hide RowStart, Put;
    var t := Store(s, c);
    CursorIndexInPage(s);
    forall r | 0 <= r < s.rows && !t.dirty[r] ensures !s.dirty[r] && RowCells(s, r) == RowCells(t, r) {
      RowsApart(r, s.row, s.cols);
      RowsApart(r, s.rows, s.cols);
      var i := CursorIndex(s);
      assert RowCells(t, r) == t.cells[RowStart(r, s.cols)..RowStart(r, s.cols) + s.cols];
    }
  }

  lemma EraseMarks(s: ValidScreen, mode: nat)
    requires mode <= 1
    ensures ChangesMarkedBut(s, EraseScreen(s, mode), Missed(s, EraseDisplay(mode)))
  {
    hide RowStart, Put;
    var t := EraseScreen(s, mode);
    CursorIndexInPage(s);
    NextRow(s.row, s.cols);
    forall r: nat | r < s.rows && !t.dirty[r] && r !in Missed(s, EraseDisplay(mode))
      ensures !s.dirty[r] && RowCells(s, r) == RowCells(t, r)
    {
      RowsApart(r, s.row, s.cols);
      RowsApart(r, s.rows, s.cols);
      RowsApart(r, s.row + 1, s.cols);
      var from, to := ErasedFrom(s, mode), ErasedTo(s, mode);
      if mode == 1 && r == s.row + 1 && s.col == s.cols {
        EraseFirstCell(s, r);
      } else {
        PutOutsideRow(s.cells, from, Fill(to - from, EMPTY), r, s.cols);
      }
    }
  }

  /** ED 1 with a wrap pending, on the row after the cursor's: its first cell is blanked. */
  lemma EraseFirstCell(s: ValidScreen, r: nat)
    requires s.col == s.cols && r == s.row + 1 < s.rows
    ensures RowCells(EraseScreen(s, 1), r) == RowCells(s, r)[0 := EMPTY]
  {
    CursorIndexInPage(s);
    NextRow(s.row, s.cols);
    RowsApart(r, s.rows, s.cols);
    hide RowStart;
  }

  lemma AdvanceMarks(s: ValidScreen)
    ensures ChangesMarked(s, AdvanceRow(s))
  {
    hide RowStart;
  }

  lemma PrintMarks(s: ValidScreen, c: char)
    ensures ChangesMarked(s, PrintChar(s, c))
  {
    hide RowStart, Store, AdvanceRow, RowCells;
    AdvanceMarks(s);
    if c as int >= 32 {
      var s1 := if s.col >= s.cols then AdvanceRow(s).(col := 0) else s;
      assert ChangesMarked(s, s1) by { SameCells(s, AdvanceRow(s)); }
      StoreMarks(s1, c);
      ChangesMarkedTransitive(s, s1, Store(s1, c), {}, {});
    } else {
      SameCells(s, s);
      SameCells(s, AdvanceRow(s));
    }
  }

  /** Only the cells and the marks matter. */
  lemma SameCells(s: ValidScreen, t: ValidScreen)
    requires s.rows == t.rows && s.cols == t.cols
    ensures ChangesMarked(s, s)
    ensures forall u: Screen {:trigger ChangesMarked(s, u)} ::
              Valid(u) && u == t.(row := u.row, col := u.col) ==> ChangesMarked(s, u) == ChangesMarked(s, t)
  {
    hide RowStart;
  }

  /** Every action marks the rows it changes, except ED 1 when it reaches into a row that is not marked. */
  lemma ChangesAreMarked(s: ValidScreen, a: Action)
    ensures ChangesMarked(s, Apply(s, a)) <==> !MissesMark(s, a)
  {
    hide RowStart, PrintChar, MarkedRows, ErasedTo;
    match a
    case Print(c) => PrintMarks(s, c);
    case CursorMove(row, col) =>
    case EraseDisplay(mode) =>
      if mode <= 1 {
        EraseMarks(s, mode);
        if MissesMark(s, a) {
          EraseFirstCell(s, s.row + 1);
          NotMarkedBelow(s);
        }
      }
  }

  /** Every other row an action changes it marks. */
  lemma OthersAreMarked(s: ValidScreen, a: Action)
    ensures ChangesMarkedBut(s, Apply(s, a), Missed(s, a))
  {
    hide RowStart, PrintChar, MarkedRows, ErasedTo, RowCells;
    if MissesMark(s, a) {
      EraseMarks(s, 1);
    } else {
      ChangesAreMarked(s, a);
    }
  }

  lemma {:induction false} ActionsAreMarked(s: ValidScreen, actions: seq<Action>)
    ensures ChangesMarkedBut(s, ApplyAll(s, actions), MissedRows(s, actions))
    decreases |actions|
  {
    hide Apply, RowCells, Valid, MissesMark;
    if actions == [] {
      SameCells(s, s);
    } else {
      var t := Apply(s, actions[0]);
      OthersAreMarked(s, actions[0]);
      ActionsAreMarked(t, actions[1..]);
      ChangesMarkedTransitive(s, t, ApplyAll(t, actions[1..]), Missed(s, actions[0]), MissedRows(t, actions[1..]));
    }
  }

  lemma NotMarkedBelow(s: ValidScreen)
    requires s.row + 1 < s.rows
    ensures EraseScreen(s, 1).dirty[s.row + 1] == s.dirty[s.row + 1]
  {
    hide RowStart;
  }
}
