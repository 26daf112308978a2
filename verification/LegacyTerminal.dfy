/** The state of the legacy engine (terminal.c) and what each of its primitives does to it. */
module LegacyTerminal {
  import opened Blocks
  import opened Cells

  // The page is one flat sequence of rows*cols cells; a cell pairs the byte of the page with the byte of the attribute
  // page at the same offset. `history` records every row pushed to the scrollback since the last ESC c, oldest first;
  // the bounded scrollback memory is the business of LegacySession.

  type Line = seq<Cell>

  datatype State = State(
    rows: nat, cols: nat,
    page: seq<Cell>,
    cur: int,
    top: nat, bottom: nat,             // the scroll region, rows top..bottom-1
    originMode: bool,
    wrapped: bool,                     // kf_wrapped
    graphics: bool, dographic: bool,   // kf_graphics, kf_dographic
    cursorKeys: bool, hidden: bool,    // kf_priv, kf_nocursor
    attr: bv8,                         // current attributes
    history: seq<Line>)

  /** A command that indexes cells past the end of the page is Outside: nothing is claimed about it. */
  datatype Outcome = Done(s: State) | Outside

  function PageLen(s: State): nat { RowStart(s.rows, s.cols) }

  function TopCell(s: State): nat
  {
    RowStart(s.top, s.cols)
  }

  function BottomCell(s: State): nat
  {
    RowStart(s.bottom, s.cols)
  }

  function Blank(s: State): Cell { Cell(' ', s.attr) }

  /** Everything the engine relies on but the position of the cursor. */
  ghost predicate WellFormed(s: State) {
    && 1 <= s.rows && 1 <= s.cols
    && |s.page| == PageLen(s)
    && s.top < s.bottom <= s.rows
    && AllOfLength(s.history, s.cols)
  }

  ghost predicate Valid(s: State) {
    WellFormed(s) && 0 <= s.cur <= PageLen(s)
  }

  ghost function Smallest(): State {
    State(1, 1, [Cell(' ', 0)], 0, 0, 1, false, false, false, false, false, false, 0, [])
  }

  /** A state the engine can be in. */
  type ValidState = s: State | Valid(s)
    ghost witness Smallest()

  type ValidOutcome = o: Outcome | o.Done? ==> Valid(o.s)
    ghost witness Outside

  /** A state in which only the cursor may be astray. */
  type FormedState = s: State | WellFormed(s)
    ghost witness Smallest()

  /** term_new: a blank page, the cursor home, the whole page as scroll region. */
  function Initial(rows: nat, cols: nat): ValidState
    requires 1 <= rows && 1 <= cols
  {
    State(rows, cols, Fill(RowStart(rows, cols), Cell(' ', 0)), 0, 0, rows, false,
          false, false, false, false, false, 0, [])
  }

  lemma RegionInPage(s: FormedState)
    ensures TopCell(s) + s.cols <= BottomCell(s) <= PageLen(s)
    ensures TopCell(s) + s.cols == RowStart(s.top + 1, s.cols)
    ensures RowStart(s.bottom - 1, s.cols) == BottomCell(s) - s.cols
  {
    RowsApart(s.top, s.bottom, s.cols);
    RowsApart(s.bottom, s.rows, s.cols);
  }

  function ClampInt(x: int, lo: int, hi: int): int {
    if x < lo then lo else if x > hi then hi else x
  }

  /** The macro B() with origin mode on: the cursor stays in the scroll region. */
  function ClampToRegion(s: FormedState): (r: FormedState)
    ensures r == s.(cur := r.cur) && TopCell(s) <= r.cur <= BottomCell(s)
  {
    RegionInPage(s);
    s.(cur := ClampInt(s.cur, TopCell(s), BottomCell(s)))
  }

  /** The macro B(). */
  function Clamp(s: FormedState): (r: ValidState)
    ensures r == s.(cur := r.cur)
    ensures !s.originMode && 0 <= s.cur <= PageLen(s) ==> r == s
    ensures s.originMode ==> TopCell(s) <= r.cur <= BottomCell(s)
  {
    RegionInPage(s);
    if s.originMode then ClampToRegion(s) else s.(cur := ClampInt(s.cur, 0, PageLen(s)))
  }

  /** erase: n blanks with the current attributes. */
  function Erase(s: FormedState, start: int, n: int): FormedState
    requires 0 <= start && 0 <= n && start + n <= |s.page|
  {
    s.(page := Put(s.page, start, Fill(n, Blank(s))))
  }

  /** erase where the caller does not check the range. */
  function EraseOrOutside(s: ValidState, start: int, n: int): ValidOutcome
    requires 0 <= start && 0 <= n
  {
    if start + n <= |s.page| then Done(Erase(s, start, n)) else Outside
  }

  /** page_scroll: the rows of the region move up by one; row 0 goes to the scrollback when it leaves. */
  function ScrollUp(s: FormedState): (r: FormedState)
    ensures r == s.(page := r.page, history := r.history)
  {
    RegionInPage(s);
    s.(page := ShiftUp(s.page, TopCell(s), BottomCell(s), s.cols, Blank(s)),
       history := if s.top == 0 then s.history + [s.page[..s.cols]] else s.history)
  }

  /** page_scrolldown: the rows of the region move down by one. */
  function ScrollDown(s: FormedState): (r: FormedState)
    ensures r == s.(page := r.page)
  {
    RegionInPage(s);
    s.(page := ShiftDown(s.page, TopCell(s), BottomCell(s), s.cols, Blank(s)))
  }

  /** The auto-scroll loop after LF, NEL and before a character is stored. */
  function AutoScroll(s: FormedState): (r: FormedState)
    requires 0 <= s.cur
    ensures 0 <= r.cur < BottomCell(r)
    ensures r == s.(page := r.page, history := r.history, cur := r.cur)
    decreases s.cur
  {
    hide AllOfLength, RowStart, ScrollUp, ClampToRegion;
    RegionInPage(s);
    if s.cur >= BottomCell(s) then
      ClampBack(s, s.cur - s.cols);
      AutoScroll(ScrollUp(ClampToRegion(s.(cur := s.cur - s.cols))))
    else s
  }

  lemma AutoScrollStops(s: FormedState)
    requires 0 <= s.cur < BottomCell(s)
    ensures AutoScroll(s) == s
  {
    hide ScrollUp, ClampToRegion, AllOfLength, RowStart;
  }

  lemma AutoScrollUnrolled(s: FormedState)
    requires BottomCell(s) <= s.cur
    ensures var s1 := ScrollUp(ClampToRegion(s.(cur := s.cur - s.cols)));
            0 <= s1.cur < s.cur && s1.top == s.top && s1.bottom == s.bottom && AutoScroll(s) == AutoScroll(s1)
  {
    hide ScrollUp, ClampToRegion, AllOfLength, RowStart;
    RegionInPage(s);
    ClampBack(s, s.cur - s.cols);
  }

  lemma ClampBack(s: FormedState, c: int)
    requires BottomCell(s) <= s.cur && c < s.cur
    ensures ClampToRegion(s.(cur := c)).cur < s.cur
  {
    hide AllOfLength, RowStart;
    RegionInPage(s);
  }

  /** The loop of CSI L: each turn pushes the rest of the region down and starts one row lower. */
  function InsertLines(s: FormedState, n: nat): (r: FormedState)
    ensures r == s.(page := r.page, top := r.top)
    decreases n
  {
    hide AllOfLength, RowStart, ScrollDown;
    if n > 0 && s.top + 1 < s.bottom then
      var s' := ScrollDown(s);
      InsertLines(s'.(top := s.top + 1), n - 1)
    else s
  }

  /** The loop of CSI M. */
  function DeleteLines(s: FormedState, n: nat): (r: FormedState)
    ensures r == s.(page := r.page, history := r.history)
    decreases n
  {
    if n > 0 then DeleteLines(ScrollUp(s), n - 1) else s
  }

  /**
    CSI @ on the cells from the cursor to the end of its row. Bytes move right by n; the attributes are
    moved from n cells before the cursor, so only the first |tail|-n of them take part.
    */
  function InsertCells(tail: Line, n: nat, blank: Cell): (r: Line)
    requires n <= |tail|
    ensures |r| == |tail|
  {
    var l := |tail| - n;
    Fill(n, blank) +
    seq(l, k requires 0 <= k < l => Cell(tail[k].ch, if k + n < l then tail[k].attr else tail[k + n].attr))
  }

  /** CSI P on the cells from the cursor to the end of its row. */
  function DeleteCells(tail: Line, n: nat, blank: Cell): (r: Line)
    requires n <= |tail|
    ensures |r| == |tail|
  {
    tail[n..] + Fill(n, blank)
  }
}
