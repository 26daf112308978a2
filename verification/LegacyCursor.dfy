/** The legacy cursor commands in rows and columns: what the arithmetic on the linear cursor amounts to. */
module LegacyCursor {
  import opened Blocks
  import opened Numbers
  import opened LegacyTerminal
  import opened LegacyCommands

  /** The cursor is in the given row and column; one past the last cell is column 0 of the row after the last. */
  predicate At(s: State, row: nat, col: nat) {
    && ((row < s.rows && col < s.cols) || (row == s.rows && col == 0))
    && s.cur == RowStart(row, s.cols) + col
  }

  /** Where B() puts a cursor at c. */
  function Bounded(s: State, c: int): int {
    if s.originMode then ClampInt(c, TopCell(s), BottomCell(s)) else ClampInt(c, 0, PageLen(s))
  }

  lemma ClampIsBounded(s: FormedState, c: int)
    ensures Clamp(s.(cur := c)) == s.(cur := Bounded(s, c))
  {
    hide RowStart, AllOfLength;
  }

  lemma AtColumn(s: ValidState, row: nat, col: nat)
    requires At(s, row, col)
    ensures CurCol(s) == col
    ensures row < s.rows ==> RowStart(row, s.cols) + s.cols <= PageLen(s)
    ensures row == s.rows ==> s.cur == PageLen(s)
  {
    RowColOf(row, col, s.cols);
    RowsApart(row, s.rows, s.cols);
  }

  /** CUU stays in its column and stops at the first row; the scroll region plays no part. */
  lemma UpMoves(s: ValidState, a: nat, row: nat, col: nat)
    requires At(s, row, col)
    ensures var s' := Up(s, a);
            s' == s.(cur := s'.cur) && At(s', Max(row - AtLeastOne(a), 0), col)
  {
    hide AllOfLength;
    AtColumn(s, row, col);
    FirstRow(s.cols);
    RowsBack(row, AtLeastOne(a), s.cols);
  }

  lemma RowsBack(row: nat, n: nat, cols: nat)
    ensures n <= row ==> RowStart(row, cols) - RowStart(n, cols) == RowStart(row - n, cols)
    ensures n > row ==> RowStart(row, cols) + cols <= RowStart(n, cols)
  {
    if n <= row {
      RowStartAdd(row - n, n, cols);
    } else {
      RowsApart(row, n, cols);
    }
  }

  /** CUD stays in its column and stops at the last row. */
  lemma DownMoves(s: ValidState, a: nat, row: nat, col: nat)
    requires At(s, row, col)
    ensures var s' := Down(s, a);
            s' == s.(cur := s'.cur) && At(s', Min(row + AtLeastOne(a), s.rows - 1), col)
  {
    hide AllOfLength, RowStart;
    var n := AtLeastOne(a);
    AtColumn(s, row, col);
    RowStartAdd(row, n, s.cols);
    RowsApart(row + n, s.rows, s.cols);
    NextRow(s.rows - 1, s.cols);
  }

  /** CUF and CUB stay in their row and stop at its ends, as far as B() lets them. */
  lemma SidewaysMoves(s: ValidState, a: nat, row: nat, col: nat)
    requires At(s, row, col)
    ensures Forward(s, a) == s.(cur := Bounded(s, RowStart(row, s.cols) + Min(col + AtLeastOne(a), s.cols - 1)))
    ensures Back(s, a) == s.(cur := Bounded(s, RowStart(row, s.cols) + Max(col - AtLeastOne(a), 0)))
  {
    hide RowStart, AllOfLength, Clamp, Bounded;
    AtColumn(s, row, col);
    ClampIsBounded(s, RowStart(row, s.cols) + Min(col + AtLeastOne(a), s.cols - 1));
    ClampIsBounded(s, RowStart(row, s.cols) + Max(col - AtLeastOne(a), 0));
  }

  /** CHA goes to its column, at most the last; column 0, which does not exist, is the cell before the row. */
  lemma ColumnMoves(s: ValidState, a: nat, row: nat, col: nat)
    requires At(s, row, col)
    ensures ToColumn(s, a) == s.(cur := Bounded(s, RowStart(row, s.cols) + Min(a, s.cols) - 1))
  {
    hide RowStart, AllOfLength, Clamp, Bounded;
    AtColumn(s, row, col);
    ClampIsBounded(s, RowStart(row, s.cols) + Min(a, s.cols) - 1);
  }

  /**
    VPA goes to its row, at most the last, in the same column, and resets a region the row is not in. Row 0,
    which does not exist, resets the region and leads to the first cell.
    */
  lemma VerticalMoves(s: ValidState, a: nat, row: nat, col: nat)
    requires At(s, row, col)
    ensures var s1 := RegionFor(s, Min(a, s.rows) - 1);
            && s1 == (if s.top < a <= s.bottom then s
                      else if a > s.rows && s.bottom == s.rows then s else s.(top := 0, bottom := s.rows))
            && VerticalPosition(s, a) ==
               if a >= 1 then s1.(cur := Bounded(s1, RowStart(Min(a, s.rows) - 1, s.cols) + col)) else s1.(cur := 0)
  {
    hide AllOfLength, RowStart, VerticalPosition, Bounded, RegionFor;
    AtColumn(s, row, col);
    RegionForIs(s, Min(a, s.rows) - 1);
    if a >= 1 {
      VerticalToRow(s, a);
    } else {
      VerticalToStart(s);
    }
  }

  lemma VerticalToRow(s: ValidState, a: nat)
    requires a >= 1
    ensures var s1 := RegionFor(s, Min(a, s.rows) - 1);
            VerticalPosition(s, a) == s1.(cur := Bounded(s1, RowStart(Min(a, s.rows) - 1, s.cols) + CurCol(s)))
  {
    hide AllOfLength, RowStart, Clamp, Bounded, RegionFor, CurCol;
    RegionForIs(s, Min(a, s.rows) - 1);
    NextRow(Min(a, s.rows) - 1, s.cols);
    ClampIsBounded(RegionFor(s, Min(a, s.rows) - 1), RowStart(Min(a, s.rows) - 1, s.cols) + CurCol(s));
  }

  lemma VerticalToStart(s: ValidState)
    ensures VerticalPosition(s, 0) == RegionFor(s, -1).(cur := 0)
  {
    hide AllOfLength, RowStart, Clamp, Bounded, RegionFor, CurCol;
    RegionForIs(s, -1);
    FirstRow(s.cols);
    ClampIsBounded(RegionFor(s, -1), CurCol(s) - s.cols);
    BoundedAtStart(RegionFor(s, -1), CurCol(s) - s.cols);
  }

  lemma RegionForIs(s: ValidState, row: int)
    ensures RegionFor(s, row) == if s.top <= row < s.bottom then s else s.(top := 0, bottom := s.rows)
  {
    hide AllOfLength, RowStart;
  }

  lemma BoundedAtStart(s: FormedState, c: int)
    requires s.top == 0 && c <= 0
    ensures Bounded(s, c) == 0
  {
    hide AllOfLength;
    RegionInPage(s);
  }

  /** CUP outside origin mode: the cell named by 1-based coordinates brought into the page. */
  lemma PositionMoves(s: ValidState, a1: nat, a2: nat)
    requires !s.originMode
    ensures var s', target := CursorPosition(s, a1, a2), Min(AtLeastOne(a1), s.rows) - 1;
            && s' == s.(cur := s'.cur, top := s'.top, bottom := s'.bottom, wrapped := false)
            && At(s', target, Min(AtLeastOne(a2), s.cols) - 1)
            && (s'.top, s'.bottom) == if s.top <= target < s.bottom then (s.top, s.bottom) else (0, s.rows)
  {
    hide AllOfLength, RowStart;
    RowsApart(Min(AtLeastOne(a1), s.rows) - 1, s.rows, s.cols);
  }

  /** CUP in origin mode counts rows from the top of the region; past its end the cursor goes below it. */
  lemma PositionInRegion(s: ValidState, a1: nat, a2: nat)
    requires s.originMode
    ensures var s' := CursorPosition(s, a1, a2);
            var target := s.top + Min(AtLeastOne(a1), s.rows) - 1;
            && s' == s.(cur := s'.cur, wrapped := false)
            && (target < s.bottom ==> At(s', target, Min(AtLeastOne(a2), s.cols) - 1))
            && (target >= s.bottom ==> s'.cur == BottomCell(s))
  {
    hide AllOfLength, RowStart;
    var target := s.top + Min(AtLeastOne(a1), s.rows) - 1;
    RowsApart(target, s.bottom, s.cols);
    RowsApart(s.top, target, s.cols);
    RowsApart(target, s.rows, s.cols);
  }

  /** An erase of n cells from start on blanks these, or is outside the page. */
  lemma ErasedCell(s: ValidState, start: int, n: int, i: nat)
    requires 0 <= start && 0 <= n && i < |s.page|
    ensures start + n > |s.page| ==> EraseOrOutside(s, start, n) == Outside
    ensures start + n <= |s.page| ==>
      var e := EraseOrOutside(s, start, n);
      && e.Done? && e.s == s.(page := e.s.page) && |e.s.page| == |s.page|
      && e.s.page[i] == if start <= i < start + n then Blank(s) else s.page[i]
  {
    hide AllOfLength, RowStart;
  }

  /** EL blanks its part of the cursor's row, cell by cell, and nothing else. */
  lemma EraseLineCells(s: ValidState, mode: nat, row: nat, col: nat, r: nat, c: nat)
    requires At(s, row, col) && r < s.rows && c < s.cols
    ensures row == s.rows ==> EraseLine(s, mode) == Outside
    ensures row < s.rows ==>
      var e := EraseLine(s, mode);
      && e.Done? && e.s == s.(page := e.s.page) && |e.s.page| == |s.page|
      && RowStart(r, s.cols) + c < |s.page|
      && e.s.page[RowStart(r, s.cols) + c] ==
         if r == row && (mode == 2 || (mode == 1 && c <= col) || (mode != 1 && c >= col)) then Blank(s)
         else s.page[RowStart(r, s.cols) + c]
  {
    hide AllOfLength, RowStart, EraseOrOutside;
    AtColumn(s, row, col);
    RowsApart(r, row, s.cols);
    RowsApart(r, s.rows, s.cols);
    var start := if mode == 1 || mode == 2 then s.cur - col else s.cur;
    var n := if mode == 1 then col + 1 else if mode == 2 then s.cols else s.cols - col;
    assert EraseLine(s, mode) == EraseOrOutside(s, start, n);
    ErasedCell(s, start, n, RowStart(r, s.cols) + c);
  }

  /** ED blanks what comes before, what comes after, or the whole page, cell by cell; the cursor stays. */
  lemma EraseDisplayCells(s: ValidState, mode: nat, row: nat, col: nat, r: nat, c: nat)
    requires At(s, row, col) && r < s.rows && c < s.cols
    ensures row == s.rows && mode == 1 ==> EraseDisplay(s, mode) == Outside
    ensures row < s.rows || mode != 1 ==>
      var e := EraseDisplay(s, mode);
      && e.Done? && e.s == s.(page := e.s.page) && |e.s.page| == |s.page|
      && RowStart(r, s.cols) + c < |s.page|
      && e.s.page[RowStart(r, s.cols) + c] ==
         if mode == 2 || (mode == 1 && (r < row || (r == row && c <= col)))
            || (mode != 1 && (r > row || (r == row && c >= col))) then Blank(s)
         else s.page[RowStart(r, s.cols) + c]
  {
    hide AllOfLength, RowStart, EraseOrOutside;
    AtColumn(s, row, col);
    RowsApart(r, row, s.cols);
    RowsApart(r, s.rows, s.cols);
    var start := if mode == 1 || mode == 2 then 0 else s.cur;
    var n := if mode == 1 then s.cur + 1 else PageLen(s) - start;
    assert EraseDisplay(s, mode) == EraseOrOutside(s, start, n);
    ErasedCell(s, start, n, RowStart(r, s.cols) + c);
  }

  /** RI goes one row up; from the region's first row, or above it, the region scrolls and the cursor stays. */
  lemma ReverseIndexMoves(s: ValidState, row: nat, col: nat)
    requires At(s, row, col)
    ensures ReverseIndex(s) ==
            if row > s.top then s.(cur := Bounded(s, RowStart(row - 1, s.cols) + col), wrapped := false)
            else ScrollDown(s).(cur := Bounded(s, s.cur), wrapped := false)
  {
    hide AllOfLength, ScrollDown, RowStart, ReverseIndex, Bounded;
    OneRowUp(s, row, col);
    if row > s.top {
      ReverseIndexUp(s);
    } else {
      ReverseIndexScrolls(s);
    }
  }

  lemma ReverseIndexUp(s: ValidState)
    requires TopCell(s) <= s.cur - s.cols
    ensures ReverseIndex(s) == s.(cur := Bounded(s, s.cur - s.cols), wrapped := false)
  {
    hide AllOfLength, ScrollDown, RowStart, Clamp, ClampInt;
    ClampIsBounded(s.(wrapped := false), s.cur - s.cols);
  }

  lemma ReverseIndexScrolls(s: ValidState)
    requires s.cur - s.cols < TopCell(s)
    ensures ReverseIndex(s) == ScrollDown(s).(cur := Bounded(s, s.cur), wrapped := false)
  {
    hide AllOfLength, ScrollDown, RowStart, Clamp, ClampInt;
    ClampIsBounded(ScrollDown(s).(wrapped := false), s.cur);
  }

  /** One row up from a cell: still in the region or below it exactly when the row is below the region's first. */
  lemma OneRowUp(s: ValidState, row: nat, col: nat)
    requires At(s, row, col)
    ensures row > s.top <==> s.cur - s.cols >= TopCell(s)
    ensures row > 0 ==> s.cur - s.cols == RowStart(row - 1, s.cols) + col
  {
    hide AllOfLength;
    if row > s.top {
      NextRow(row - 1, s.cols);
      RowsApart(s.top, row - 1, s.cols);
    } else {
      RowsApart(row, s.top, s.cols);
    }
  }
}
