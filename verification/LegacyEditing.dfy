/** What the legacy engine's loops amount to: block moves of rows, shifts within a row, and leaving the page. */
module LegacyEditing {
  import opened Blocks
  import opened Numbers
  import opened Cells
  import opened ControlCharacters
  import opened LegacyTerminal
  import opened LegacyCommands
  import opened LegacyStream

  /** Row r of the page. */
  function RowOf(s: FormedState, r: nat): Line
    requires r < s.rows
  {
    RowsApart(r, s.rows, s.cols);
    Row(s.page, s.cols, r)
  }

  function BlankLine(s: State): Line { Fill(s.cols, Blank(s)) }

  /** page_scroll, row by row. */
  lemma ScrollUpRow(s: FormedState, r: nat)
    requires r < s.rows
    ensures RowOf(ScrollUp(s), r) ==
            if s.top <= r < s.bottom - 1 then RowOf(s, r + 1)
            else if r == s.bottom - 1 then BlankLine(s)
            else RowOf(s, r)
  {
    hide ShiftUp, AllOfLength;
    ShiftUpRow(s.page, s.rows, s.cols, s.top, s.bottom, Blank(s), r);
  }

  /** page_scrolldown, row by row. */
  lemma ScrollDownRow(s: FormedState, r: nat)
    requires r < s.rows
    ensures RowOf(ScrollDown(s), r) ==
            if s.top < r < s.bottom then RowOf(s, r - 1)
            else if r == s.top then BlankLine(s)
            else RowOf(s, r)
  {
    hide ShiftDown, AllOfLength;
    ShiftDownRow(s.page, s.rows, s.cols, s.top, s.bottom, Blank(s), r);
  }

  lemma RowOfSamePage(s: FormedState, t: State, r: nat)
    requires r < s.rows && t == s.(top := t.top) && t.top < t.bottom
    ensures WellFormed(t) && RowOf(s, r) == RowOf(t, r)
  {
  }

  /** The loop of CSI L is one move down by n rows, but never by more than all rows but one. */
  lemma {:induction false} InsertLinesRow(s: FormedState, n: nat, r: nat)
    requires r < s.rows
    ensures var k := Min(n, s.bottom - s.top - 1);
            RowOf(InsertLines(s, n), r) ==
            if s.top + k <= r < s.bottom then RowOf(s, r - k)
            else if s.top <= r < s.bottom then BlankLine(s)
            else RowOf(s, r)
    decreases n
  {
    hide ScrollDown, RowOf, RowStart, AllOfLength;
    if n > 0 && s.top + 1 < s.bottom {
      var s1 := ScrollDown(s);
      var s2 := s1.(top := s.top + 1);
      var k := Min(n - 1, s2.bottom - s2.top - 1);
      RowOfSamePage(s1, s2, r);
      InsertLinesRow(s2, n - 1, r);
      ScrollDownRow(s, r);
      if s2.top + k <= r < s.bottom {
        ScrollDownRow(s, r - k);
        RowOfSamePage(s1, s2, r - k);
      }
    }
  }

  /** The loop of CSI M is one move up by n rows. */
  lemma {:induction false} DeleteLinesRow(s: FormedState, n: nat, r: nat)
    requires r < s.rows
    ensures var k := Min(n, s.bottom - s.top);
            RowOf(DeleteLines(s, n), r) ==
            if s.top <= r < s.bottom - k then RowOf(s, r + k)
            else if s.top <= r < s.bottom then BlankLine(s)
            else RowOf(s, r)
    decreases n
  {
    hide RowOf, ScrollUp;
    if n > 0 {
      var s1 := ScrollUp(s);
      var k := Min(n - 1, s.bottom - s.top);
      DeleteLinesRow(s1, n - 1, r);
      ScrollUpRow(s, r);
      if s.top <= r < s.bottom - k {
        ScrollUpRow(s, r + k);
      }
    }
  }

  /** The rows from..to of the page, as a list. */
  function RowList(s: FormedState, from: nat, to: nat): (lines: seq<Line>)
    requires from <= to <= s.rows
    ensures |lines| == to - from
  {
    seq(to - from, i requires 0 <= i < to - from => RowOf(s, from + i))
  }

  lemma ScrollUpHistory(s: FormedState)
    ensures ScrollUp(s).history == if s.top == 0 then s.history + [RowOf(s, 0)] else s.history
  {
  }

  /** The rows DeleteLines(s, n) pushes to the scrollback when the region starts at row 0. */
  function Pushed(s: FormedState, n: nat): seq<Line>
  {
    var k := Min(n, s.bottom);
    RowList(s, 0, k) + Fill(n - k, BlankLine(s))
  }

  lemma PushedStep(s: FormedState, n: nat)
    requires s.top == 0 && n > 0
    ensures Pushed(s, n) == [RowOf(s, 0)] + Pushed(ScrollUp(s), n - 1)
  {
    hide ScrollUp, RowOf, AllOfLength;
    var a, b := Pushed(s, n), [RowOf(s, 0)] + Pushed(ScrollUp(s), n - 1);
    forall i | 0 < i < n ensures a[i] == b[i] {
      if i - 1 < s.bottom { ScrollUpRow(s, i - 1); }
    }
  }

  /** Scrolling from row 0 pushes the rows it removes, then the blank rows that followed them. */
  lemma {:induction false} DeleteLinesHistory(s: FormedState, n: nat)
    ensures DeleteLines(s, n).history == if s.top == 0 then s.history + Pushed(s, n) else s.history
    decreases n
  {
    hide ScrollUp, Pushed;
    if n > 0 {
      ScrollUpHistory(s);
      DeleteLinesHistory(ScrollUp(s), n - 1);
      if s.top == 0 {
        PushedStep(s, n);
        assert s.history + [RowOf(s, 0)] + Pushed(ScrollUp(s), n - 1) == s.history + Pushed(s, n);
      }
    } else {
      NothingPushed(s);
    }
  }

  lemma NothingPushed(s: FormedState)
    ensures s.history + Pushed(s, 0) == s.history
  {
  }

  /** CSI L with parameter a, row by row: one move, which stops one row short of emptying the region. */
  lemma InsertLinesIsOneMove(s: ValidState, a: nat, r: nat)
    requires r < s.rows
    ensures var s' := EditLines(s, 'L', a);
            && s' == s.(page := s'.page)
            && (!CursorInRegion(s) ==> s' == s)
            && (CursorInRegion(s) ==>
                 var at := RowAt(s.cur, s.cols);
                 var k := Min(a, s.bottom - at - 1);
                 && 0 <= k
                 && (r < at || s.bottom <= r ==> RowOf(s', r) == RowOf(s, r))
                 && (at <= r < at + k ==> RowOf(s', r) == BlankLine(s))
                 && (at + k <= r < s.bottom ==> RowOf(s', r) == RowOf(s, r - k)))
  {
    hide ScrollDown, RowOf, RowStart, AllOfLength, InsertLines, EditLines, RowAt;
    OutsideRegion(s, 'L', a);
    if CursorInRegion(s) {
      EditLinesIs(s, 'L', a);
      var at := RowAt(s.cur, s.cols);
      var s1 := s.(top := at);
      InsertLinesRow(s1, a, r);
      var k := Min(a, s.bottom - at - 1);
      RowOfSamePage(s, s1, if at + k <= r < s.bottom then r - k else r);
      RowOfSamePage(InsertLines(s1, a), InsertLines(s1, a).(top := s.top), r);
    }
  }

  /** CSI M with parameter a, row by row: one move; nothing when the cursor is on the region's last row. */
  lemma DeleteLinesIsOneMove(s: ValidState, a: nat, r: nat)
    requires r < s.rows
    ensures var s' := EditLines(s, 'M', a);
            && s' == s.(page := s'.page, history := s'.history)
            && (!CursorInRegion(s) || RowAt(s.cur, s.cols) + 1 >= s.bottom ==> s' == s)
            && (CursorInRegion(s) && RowAt(s.cur, s.cols) + 1 < s.bottom ==>
                 var at := RowAt(s.cur, s.cols);
                 var k := Min(a, s.bottom - at);
                 && (r < at || s.bottom <= r ==> RowOf(s', r) == RowOf(s, r))
                 && (at <= r < s.bottom - k ==> RowOf(s', r) == RowOf(s, r + k))
                 && (s.bottom - k <= r < s.bottom ==> RowOf(s', r) == BlankLine(s)))
  {
    hide ScrollUp, BlankLine, Blank, RowOf, RowStart, AllOfLength, DeleteLines, EditLines, RowAt;
    OutsideRegion(s, 'M', a);
    if CursorInRegion(s) {
      EditLinesIs(s, 'M', a);
      if RowAt(s.cur, s.cols) + 1 < s.bottom {
        DeletedFrom(s, RowAt(s.cur, s.cols), a, r);
      }
    }
  }

  /** The loop of CSI M with the region's top put at row `at` and back. */
  lemma DeletedFrom(s: ValidState, at: nat, a: nat, r: nat)
    requires r < s.rows && at < s.bottom
    ensures var s' := DeleteLines(s.(top := at), a).(top := s.top);
            var k := Min(a, s.bottom - at);
            && WellFormed(s')
            && (r < at || s.bottom <= r ==> RowOf(s', r) == RowOf(s, r))
            && (at <= r < s.bottom - k ==> RowOf(s', r) == RowOf(s, r + k))
            && (s.bottom - k <= r < s.bottom ==> RowOf(s', r) == BlankLine(s))
  {
    hide RowOf, RowStart, AllOfLength, DeleteLines;
    var s1 := s.(top := at);
    var k := Min(a, s.bottom - at);
    DeleteLinesRow(s1, a, r);
    RowOfSamePage(s, s1, if at <= r < s.bottom - k then r + k else r);
    RowOfSamePage(DeleteLines(s1, a), DeleteLines(s1, a).(top := s.top), r);
  }

  /** CSI M pushes rows to the scrollback when the cursor is on row 0, and only then. */
  lemma DeleteLinesScrollback(s: ValidState, a: nat)
    ensures EditLines(s, 'M', a).history ==
            if CursorInRegion(s) && RowAt(s.cur, s.cols) == 0 && 1 < s.bottom
            then s.history + Pushed(s.(top := 0), a)
            else s.history
  {
    hide ScrollUp, RowOf, RowStart, AllOfLength, Pushed;
    if CursorInRegion(s) && RowAt(s.cur, s.cols) + 1 < s.bottom {
      CursorRowInRegion(s);
      DeleteLinesHistory(s.(top := RowAt(s.cur, s.cols)), a);
    }
  }

  /** A scroll with the cursor put at c. */
  function ScrollAt(s: FormedState, c: int): (r: FormedState)
    ensures r == s.(cur := c, page := r.page, history := r.history)
  {
    ScrollUp(s.(cur := c))
  }

  /** One turn of the auto-scroll loop is enough when the cursor is on the first row below the region. */
  lemma AutoScrollOnce(s: FormedState)
    requires BottomCell(s) <= s.cur < BottomCell(s) + s.cols
    ensures AutoScroll(s) == ScrollAt(s, s.cur - s.cols)
  {
    hide AllOfLength, RowStart, ScrollUp, AutoScroll;
    RegionInPage(s);
    AutoScrollUnrolled(s);
    AutoScrollStops(ScrollAt(s, s.cur - s.cols));
  }

  lemma ClampBelow(s: FormedState, c: int)
    requires BottomCell(s) <= c
    ensures ClampToRegion(s.(cur := c)) == s.(cur := BottomCell(s))
  {
    hide AllOfLength, RowStart;
    RegionInPage(s);
  }

  lemma AutoScrollTwice(s: FormedState)
    requires BottomCell(s) + s.cols <= s.cur
    ensures AutoScroll(s) == ScrollAt(ScrollAt(s, BottomCell(s)), BottomCell(s) - s.cols)
  {
    hide AllOfLength, RowStart, ScrollAt, AutoScroll, BottomCell, WellFormed;
    AutoScrollNext(s);
    BottomStays(s, BottomCell(s));
    AutoScrollOnce(ScrollAt(s, BottomCell(s)));
  }

  lemma BottomStays(s: FormedState, c: int)
    ensures ScrollAt(s, c).cur == c && BottomCell(ScrollAt(s, c)) == BottomCell(s)
    ensures ScrollAt(s, c).cols == s.cols >= 1
  {
    hide AllOfLength, RowStart;
  }

  lemma AutoScrollNext(s: FormedState)
    requires BottomCell(s) + s.cols <= s.cur
    ensures 0 <= BottomCell(s) && AutoScroll(s) == AutoScroll(ScrollAt(s, BottomCell(s)))
  {
    hide AllOfLength, RowStart, ScrollUp, AutoScroll, ClampToRegion;
    RegionInPage(s);
    AutoScrollUnrolled(s);
    ClampBelow(s, s.cur - s.cols);
  }

  /** The auto-scroll loop runs at most twice; the second turn comes with the cursor below the region. */
  lemma AutoScrollTurns(s: FormedState)
    requires 0 <= s.cur
    ensures s.cur < BottomCell(s) ==> AutoScroll(s) == s
    ensures BottomCell(s) <= s.cur < BottomCell(s) + s.cols ==>
              AutoScroll(s) == ScrollAt(s, s.cur - s.cols)
    ensures BottomCell(s) + s.cols <= s.cur ==>
              AutoScroll(s) == ScrollAt(ScrollAt(s, BottomCell(s)), BottomCell(s) - s.cols)
  {
    hide RowStart, ScrollUp, AllOfLength;
    if BottomCell(s) <= s.cur < BottomCell(s) + s.cols {
      AutoScrollOnce(s);
    } else if BottomCell(s) + s.cols <= s.cur {
      AutoScrollTwice(s);
    }
  }

  /** A cursor the loop moves ends inside the region. */
  lemma {:induction false} AutoScrollInRegion(s: FormedState)
    requires BottomCell(s) <= s.cur
    ensures TopCell(s) <= AutoScroll(s).cur < BottomCell(s)
    decreases s.cur
  {
    hide AutoScroll, ScrollUp, AllOfLength, RowStart;
    AutoScrollUnrolled(s);
    var s1 := ScrollUp(ClampToRegion(s.(cur := s.cur - s.cols)));
    if BottomCell(s1) <= s1.cur {
      AutoScrollInRegion(s1);
    } else {
      AutoScrollStops(s1);
    }
  }

  /** B() puts the cursor at the nearest place in the page, in the region when origin mode is on. */
  lemma ClampIsNearest(s: FormedState)
    ensures var lo, hi := if s.originMode then TopCell(s) else 0, if s.originMode then BottomCell(s) else PageLen(s);
            var c := Clamp(s).cur;
            && lo <= c <= hi
            && (lo <= s.cur <= hi ==> c == s.cur) && (s.cur < lo ==> c == lo) && (s.cur > hi ==> c == hi)
  {
    hide AllOfLength, RowStart;
    RegionInPage(s);
  }

  /** Storing a character always advances the cursor by one cell: the reset to cell 0 is never reached. */
  lemma OverflowUnreachable(s: ValidState, c: char)
    ensures StoreNext(s, c).cur == AutoScroll(s).cur + 1 <= BottomCell(s) <= PageLen(s)
  {
    hide AutoScroll, AllOfLength, RowStart;
    RegionInPage(s);
    RegionInPage(AutoScroll(s));
  }

  /** The commands that index cells from the cursor on without checking. */
  predicate LeavesPage(t: Token) {
    t.Csi? &&
    var args := ParseArgs(t.params);
    || (t.cmd in {'@', 'P', 'X'} && args.a1 > 0)
    || t.cmd == 'K'
    || (t.cmd == 'J' && args.n > 0 && args.a1 == 1)
  }

  /** A command leaves the page exactly when it is one of these and the cursor is past the last cell. */
  lemma OutsideExactly(s: ValidState, t: Token)
    ensures Step(s, t) == Outside <==> s.cur == PageLen(s) && LeavesPage(t)
  {
    hide RowStart, AllOfLength, ParseArgs, PlainStep, EscapeStep, MoveCursor, CursorPosition, EditLines,
         DecMode, SetRegion, CharsetStep, DecStep, SetRendition, Put;
    RowAroundCursor(s);
  }

  /** The characters that are stored in a cell. */
  predicate IsStored(c: char) { c !in {CR, SO, SI, BEL, TAB, BS, LF, ESC, NUL} }

  /** A character typed on a page with room, with the whole page as region, goes to the cursor's cell. */
  lemma TypedOne(s: ValidState, c: char)
    requires s.cur < PageLen(s) && s.bottom == s.rows && IsStored(c)
    ensures Pass(s, [c]).Stopped? && Pass(s, [c]).rest == ""
    ensures var s' := Pass(s, [c]).s; s'.cur == s.cur + 1 && s'.bottom == s'.rows == s.rows && s'.cols == s.cols
  {
    hide RowStart, AllOfLength, AutoScroll, ScrollUp;
    AutoScrollStops(s);
    assert Lex([c]) == Complete(Plain(c), 1) && [c][1..] == [];
  }

  lemma {:induction false} TypedAll(s: ValidState, text: Text)
    requires s.cur + |text| <= PageLen(s) && s.bottom == s.rows
    requires forall i :: 0 <= i < |text| ==> IsStored(text[i])
    ensures Pass(s, text).Stopped? && Pass(s, text).rest == ""
    ensures var s' := Pass(s, text).s; s'.cur == s.cur + |text| && s'.rows == s.rows && s'.cols == s.cols
    decreases |text|
  {
    hide Step, Lex, IsStored, RowStart, AllOfLength;
    if text != [] {
      TypedOne(s, text[0]);
      TypedAll(Pass(s, [text[0]]).s, text[1..]);
      PassSplit(s, [text[0]], text[1..]);
      assert [text[0]] + text[1..] == text && "" + text[1..] == text[1..];
    }
  }

  /** A page typed full from the start, then EL: the erase goes past the page. */
  lemma FullPageThenErase(rows: nat, cols: nat, text: Text)
    requires 1 <= rows && 1 <= cols && |text| == RowStart(rows, cols)
    requires forall i :: 0 <= i < |text| ==> IsStored(text[i])
    ensures Append(Initial(rows, cols), text + [ESC, '[', 'K']) == OutsidePage
  {
    hide Step, RowStart, AllOfLength, IsStored;
    var s := Initial(rows, cols);
    TypedAll(s, text);
    PassSplit(s, text, [ESC, '[', 'K']);
    EraseAtEnd(Pass(s, text).s);
    assert "" + [ESC, '[', 'K'] == [ESC, '[', 'K'];
    AppendText(s, text + [ESC, '[', 'K']);
  }

  lemma EraseAtEnd(s: ValidState)
    requires s.cur == PageLen(s)
    ensures Pass(s, [ESC, '[', 'K']) == OutsidePage
  {
    hide Step, RowStart, AllOfLength;
    var k := Csi('K', ' ', []);
    assert Lex([ESC, '[', 'K']) == Complete(k, 3) by { assert [ESC, '[', 'K'][2..2] == []; }
    OutsideExactly(s, k);
  }

  lemma InsertThenDeleteCells(tail: Line, n: nat, blank: Cell)
    requires n <= |tail|
    ensures var t := DeleteCells(InsertCells(tail, n, blank), n, blank);
            && |t| == |tail|
            && (forall k {:trigger t[k]} :: 0 <= k < |tail| - n - n ==> t[k] == tail[k])
            && (forall k {:trigger t[k]} :: 0 <= k < |tail| - n && k >= |tail| - n - n ==>
                  t[k] == Cell(tail[k].ch, tail[k + n].attr))
            && (forall k {:trigger t[k]} :: |tail| - n <= k < |tail| ==> t[k] == blank)
  {
  }

  lemma TailWithTail(s: ValidState, t1: Line, t2: Line)
    requires s.cur < PageLen(s) && |t1| == |t2| == s.cols - CurCol(s)
    ensures Tail(WithTail(s, t1)) == t1
    ensures WithTail(WithTail(s, t1), t2) == WithTail(s, t2)
  {
    hide RowStart, AllOfLength;
    RowAroundCursor(s);
    assert WithTail(WithTail(s, t1), t2).page == WithTail(s, t2).page;
  }

  lemma InsertThenDeleteTail(s: ValidState, n: nat)
    requires s.cur < PageLen(s) && n > 0
    ensures EditCells(s, '@', n).Done? && EditCells(EditCells(s, '@', n).s, 'P', n).Done?
    ensures var m := Min(n, s.cols - CurCol(s));
            EditCells(EditCells(s, '@', n).s, 'P', n).s
            == WithTail(s, DeleteCells(InsertCells(Tail(s), m, Blank(s)), m, Blank(s)))
  {
    hide RowStart, AllOfLength, InsertCells, DeleteCells, Tail, Put;
    RowAroundCursor(s);
    var m := Min(n, s.cols - CurCol(s));
    var t1 := InsertCells(Tail(s), m, Blank(s));
    TailWithTail(s, t1, DeleteCells(t1, m, Blank(s)));
  }

  lemma WithTailAt(s: ValidState, t: Line, i: nat)
    requires s.cur < PageLen(s) && |t| == s.cols - CurCol(s) && i < |s.page|
    ensures s.cur <= i < s.cur + |t| ==> WithTail(s, t).page[i] == t[i - s.cur] && Tail(s)[i - s.cur] == s.page[i]
    ensures !(s.cur <= i < s.cur + |t|) ==> WithTail(s, t).page[i] == s.page[i]
  {
    hide RowStart, AllOfLength;
  }

  lemma TailAt(s: ValidState, j: nat)
    requires s.cur < PageLen(s) && j < s.cols - CurCol(s)
    ensures s.cur + j < |s.page| && Tail(s)[j] == s.page[s.cur + j]
  {
    hide RowStart, AllOfLength, CurCol;
    RowAroundCursor(s);
  }

  /**
    CSI @ then CSI P with the same parameter: the bytes come back, except those that fell off the row. As many
    cells before these come back with the attribute of the cell as far behind them, all others whole.
    */
  lemma InsertThenDelete(s: ValidState, n: nat, i: nat)
    requires s.cur < PageLen(s) && i < |s.page|
    ensures EditCells(s, '@', n).Done? && EditCells(EditCells(s, '@', n).s, 'P', n).Done?
    ensures var s' := EditCells(EditCells(s, '@', n).s, 'P', n).s;
            var m := Min(n, s.cols - CurCol(s));
            var end := s.cur - CurCol(s) + s.cols;
            && s' == s.(page := s'.page)
            && |s'.page| == |s.page|
            && s'.page[i] == if end - m <= i < end then Blank(s)
                             else if s.cur <= i < end - m && i >= end - m - m then
                               Cell(s.page[i].ch, s.page[i + m].attr)
                             else s.page[i]
  {
    hide RowStart, AllOfLength, InsertCells, DeleteCells, Tail, Put, CurCol;
    if n > 0 {
      var m := Min(n, s.cols - CurCol(s));
      var t := DeleteCells(InsertCells(Tail(s), m, Blank(s)), m, Blank(s));
      InsertThenDeleteTail(s, n);
      InsertThenDeleteCells(Tail(s), m, Blank(s));
      WithTailAt(s, t, i);
      if s.cur <= i < s.cur + |t| - m {
        TailAt(s, i - s.cur + m);
      }
    }
  }
}
