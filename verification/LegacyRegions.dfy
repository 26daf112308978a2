/** Scrolling in the legacy engine, in rows: what sets the scroll region, and what LF does in and around it. */
module LegacyRegions {
  import opened Blocks
  import opened Options
  import opened ControlCharacters
  import opened LegacyTerminal
  import opened LegacyCommands
  import opened LegacyStream
  import opened LegacySequences
  import opened LegacyCursor
  import opened LegacyEditing

  /**
    CSI t ; b r puts the region on rows t to b and the cursor on the first of them, when these are rows of the
    page and t is above b; without numbers the whole page is meant. Anything else does nothing.
    */
  lemma RegionSequence(s: ValidState, fs: seq<Option<nat>>)
    ensures var t, b := Arg(fs, 0), if Leading(fs) == 0 then s.rows else Arg(fs, 1);
            Runs(s, fs, 'r', Done(if 1 <= t < b <= s.rows
                                  then s.(top := t - 1, bottom := b, cur := RowStart(t - 1, s.cols)) else s))
  {
    hide Runs, RowStart, AllOfLength, Leading;
    RunsCommand(s, fs, 'r');
    var t, b := Arg(fs, 0), if Leading(fs) == 0 then s.rows else Arg(fs, 1);
    if 1 <= t < b <= s.rows {
      RegionStart(s, t, b);
    }
  }

  lemma RegionStart(s: ValidState, t: nat, b: nat)
    requires 1 <= t < b <= s.rows
    ensures SetRegion(s, Args(2, t, b, 1)) == s.(top := t - 1, bottom := b, cur := RowStart(t - 1, s.cols))
    ensures At(SetRegion(s, Args(2, t, b, 1)), t - 1, 0)
  {
    hide AllOfLength, RowStart;
    RowsApart(t - 1, b, s.cols);
    RowsApart(b, s.rows, s.cols);
  }

  /** Where LF leads: a pending wrap has already gone to the next row. */
  function RowBelow(s: State, row: nat): nat { if s.wrapped then row else row + 1 }

  /**
    LF goes one row down in its column. From the region's last row the region scrolls and the cursor stays in
    it; from a row below the region it scrolls twice, and the cursor goes to the region's last row.
    */
  lemma LineFeedMoves(s: ValidState, row: nat, col: nat)
    requires At(s, row, col)
    ensures var down, s0 := RowBelow(s, row), s.(wrapped := false);
            NextLine(s) ==
            if down < s.bottom then s0.(cur := RowStart(down, s.cols) + col)
            else if down == s.bottom then ScrollAt(s0, RowStart(s.bottom - 1, s.cols) + col)
            else ScrollAt(ScrollAt(s0, BottomCell(s)), RowStart(s.bottom - 1, s.cols))
  {
    hide AllOfLength, RowStart, AutoScroll, ScrollAt, NextLine;
    var down := RowBelow(s, row);
    RowsApart(down, s.bottom, s.cols);
    if down < s.bottom {
      LineFeedInRegion(s, row, col);
    } else if down == s.bottom {
      LineFeedAtMargin(s, row, col);
    } else {
      LineFeedBelow(s, row, col);
    }
  }

  /** Where LF puts the cursor before it scrolls. */
  lemma LineFeedCursor(s: ValidState, row: nat, col: nat)
    requires At(s, row, col)
    ensures LineFeed(s) == s.(wrapped := false, cur := RowStart(RowBelow(s, row), s.cols) + col)
    ensures NextLine(s) == AutoScroll(LineFeed(s))
  {
    hide AllOfLength, RowStart, AutoScroll;
    NextRow(row, s.cols);
  }

  lemma LineFeedInRegion(s: ValidState, row: nat, col: nat)
    requires At(s, row, col) && RowBelow(s, row) < s.bottom
    ensures NextLine(s) == s.(wrapped := false, cur := RowStart(RowBelow(s, row), s.cols) + col)
  {
    hide AllOfLength, RowStart, AutoScroll, NextLine, LineFeed;
    LineFeedCursor(s, row, col);
    RowsApart(RowBelow(s, row), s.bottom, s.cols);
    RowsApart(RowBelow(s, row), s.rows, s.cols);
    AutoScrollStops(LineFeed(s));
  }

  lemma LineFeedAtMargin(s: ValidState, row: nat, col: nat)
    requires At(s, row, col) && RowBelow(s, row) == s.bottom
    ensures NextLine(s) == ScrollAt(s.(wrapped := false), RowStart(s.bottom - 1, s.cols) + col)
  {
    hide AllOfLength, RowStart, AutoScroll, NextLine, LineFeed, ScrollAt;
    var s0, c := s.(wrapped := false), RowStart(s.bottom, s.cols) + col;
    LineFeedCursor(s, row, col);
    NextRow(s.bottom - 1, s.cols);
    AutoScrollTurns(s0.(cur := c));
    CursorOverwritten(s0, c, c - s.cols);
  }

  lemma LineFeedBelow(s: ValidState, row: nat, col: nat)
    requires At(s, row, col) && RowBelow(s, row) > s.bottom
    ensures var s0 := s.(wrapped := false);
            NextLine(s) == ScrollAt(ScrollAt(s0, BottomCell(s)), RowStart(s.bottom - 1, s.cols))
  {
    hide AllOfLength, RowStart, AutoScroll, NextLine, LineFeed, ScrollAt;
    var s0, c := s.(wrapped := false), RowStart(RowBelow(s, row), s.cols) + col;
    LineFeedCursor(s, row, col);
    RowsApart(s.bottom, RowBelow(s, row), s.cols);
    NextRow(s.bottom - 1, s.cols);
    AutoScrollTurns(s0.(cur := c));
    CursorOverwritten(s0, c, BottomCell(s));
  }

  lemma CursorOverwritten(s: FormedState, c: int, d: int)
    ensures ScrollAt(s.(cur := c), d) == ScrollAt(s, d)
  {
    hide AllOfLength, RowStart, ScrollUp;
  }

  /** LF on the last row of the region, row by row. */
  lemma MarginScrolls(s: ValidState, col: nat, r: nat)
    requires At(s, s.bottom - 1, col) && !s.wrapped && r < s.rows
    ensures var s' := NextLine(s);
            && s' == s.(page := s'.page, history := s'.history)
            && RowOf(s', r) == if s.top <= r < s.bottom - 1 then RowOf(s, r + 1)
                               else if r == s.bottom - 1 then BlankLine(s)
                               else RowOf(s, r)
  {
    hide AllOfLength, RowStart, NextLine, ScrollUp, RowOf;
    LineFeedAtMargin(s, s.bottom - 1, col);
    assert s.(wrapped := false).(cur := s.cur) == s;
    ScrollUpRow(s, r);
  }

  /** LF is read as itself. */
  lemma RunsLineFeed(s: ValidState)
    ensures Pass(s, [LF]) == Stopped(NextLine(s), "")
  {
    hide NextLine, RowStart, AllOfLength;
    assert Lex([LF]) == Complete(Plain(LF), 1) && [LF][1..] == [];
  }

  /** What is consumed whole is followed by what comes after it. */
  lemma Then(s: ValidState, a: Text, s1: State, b: Text)
    requires Pass(s, a).Stopped? && Pass(s, a).s == s1 && Pass(s, a).rest == ""
    ensures Pass(s, a + b) == Pass(s1, b)
  {
    hide Pass;
    PassSplit(s, a, b);
    assert "" + b == b;
  }

  /** The region and the cursor after CSI t ; b r and CUP to row b. */
  lemma RegionThenCup(s: ValidState, t: nat, b: nat)
    requires 1 <= t < b <= s.rows && !s.originMode
    ensures var p := Pass(s, Sequence(None, [Some(t), Some(b)], 'r') + Sequence(None, [Some(b)], 'H'));
            && p.Stopped? && p.rest == ""
            && p.s == s.(top := t - 1, bottom := b, cur := p.s.cur, wrapped := false) && At(p.s, b - 1, 0)
  {
    hide RowStart, AllOfLength, Pass, At, Sequence;
    var s1 := s.(top := t - 1, bottom := b, cur := RowStart(t - 1, s.cols));
    RegionGiven(s, t, b);
    Then(s, Sequence(None, [Some(t), Some(b)], 'r'), s1, Sequence(None, [Some(b)], 'H'));
    CupToRow(s1, b);
  }

  lemma RegionGiven(s: ValidState, t: nat, b: nat)
    requires 1 <= t < b <= s.rows
    ensures Valid(s.(top := t - 1, bottom := b, cur := RowStart(t - 1, s.cols)))
    ensures Pass(s, Sequence(None, [Some(t), Some(b)], 'r')) ==
            Stopped(s.(top := t - 1, bottom := b, cur := RowStart(t - 1, s.cols)), "")
  {
    hide RowStart, AllOfLength, Pass, Sequence;
    RegionStart(s, t, b);
    RegionSequence(s, [Some(t), Some(b)]);
  }

  lemma CupToRow(s: ValidState, row: nat)
    requires s.top < row <= s.bottom && !s.originMode
    ensures var p := Pass(s, Sequence(None, [Some(row)], 'H'));
            && p.Stopped? && p.rest == ""
            && p.s == s.(cur := p.s.cur, wrapped := false) && At(p.s, row - 1, 0)
  {
    hide RowStart, AllOfLength, Pass, Sequence, CursorPosition;
    CursorSequences(s, [Some(row)]);
    PositionMoves(s, row, 1);
  }

  /**
    A region at work: CSI t ; b r, CUP to row b, and LF. The rows t to b move up by one and the last of them is
    blank, every other row stays, and so does the cursor.
    */
  lemma RegionScrolls(s: ValidState, t: nat, b: nat, r: nat)
    requires 1 <= t < b <= s.rows && !s.originMode && r < s.rows
    ensures var text := Sequence(None, [Some(t), Some(b)], 'r') + Sequence(None, [Some(b)], 'H') + [LF];
            var p := Pass(s, text);
            && p.Stopped? && p.rest == ""
            && (p.s.rows, p.s.cols, p.s.top, p.s.bottom) == (s.rows, s.cols, t - 1, b) && At(p.s, b - 1, 0)
            && RowOf(p.s, r) == if t - 1 <= r < b - 1 then RowOf(s, r + 1)
                                else if r == b - 1 then BlankLine(s)
                                else RowOf(s, r)
  {
    hide Sequence, RowStart, AllOfLength, NextLine, Pass;
    var before := Sequence(None, [Some(t), Some(b)], 'r') + Sequence(None, [Some(b)], 'H');
    RegionThenCup(s, t, b);
    var s2 := Pass(s, before).s;
    Then(s, before, s2, [LF]);
    RunsLineFeed(s2);
    MarginScrolls(s2, 0, r);
  }
}
