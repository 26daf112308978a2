/**
  What the legacy engine does for one control sequence or one character (do_csi and page_append of
  terminal.c, 8-bit mode).

  The functions follow the arithmetic of the code on the linear cursor; LegacyCursor, LegacyRegions and
  LegacyEffects say in rows and columns what it amounts to.
  */
module LegacyCommands {
  import opened Blocks
  import opened Numbers
  import opened Cells
  import opened Decimal
  import opened ControlCharacters
  import opened LegacyTerminal

  /** A complete unit of input. */
  datatype Token =
    | Plain(c: char)                                 // a character that is not ESC
    | Csi(cmd: char, mark: char, params: string)     // ESC [ mark params cmd
    | Charset(bank: char, c: char)                   // ESC ( c and ESC ) c
    | Dec(c: char)                                   // ESC # c
    | Escape(c: char)                                // ESC c, any other c

  /** How many of the (at most three) parameters were read, and their values; 1 where none was read. */
  datatype Args = Args(n: nat, a1: nat, a2: nat, a3: nat)

  /** sscanf(params, "%d;%d;%d") for a string of digits and semicolons. */
  function ParseArgs(params: string): Args {
    var e1 := DigitsEnd(params, 0);
    if e1 == 0 then Args(0, 1, 1, 1) else
    var a1 := Value(params[0..e1]);
    if e1 == |params| then Args(1, a1, 1, 1) else
    var e2 := DigitsEnd(params, e1 + 1);
    if e2 == e1 + 1 then Args(1, a1, 1, 1) else
    var a2 := Value(params[e1 + 1..e2]);
    if e2 == |params| then Args(2, a1, a2, 1) else
    var e3 := DigitsEnd(params, e2 + 1);
    if e3 == e2 + 1 then Args(2, a1, a2, 1) else
    Args(3, a1, a2, Value(params[e2 + 1..e3]))
  }

  /** The cursor's column, 0 when it is past the page. */
  function CurCol(s: State): (c: nat)
    requires 1 <= s.cols && 0 <= s.cur
    ensures c < s.cols && c <= s.cur
  {
    ColAt(s.cur, s.cols)
  }

  /** The cursor's row lies in the page, unless the cursor is past the page. */
  lemma RowAroundCursor(s: ValidState)
    ensures s.cur - CurCol(s) == RowStart(RowAt(s.cur, s.cols), s.cols)
    ensures s.cur < PageLen(s) ==> s.cur - CurCol(s) + s.cols <= PageLen(s) && RowAt(s.cur, s.cols) < s.rows
    ensures s.cur == PageLen(s) ==> CurCol(s) == 0 && RowAt(s.cur, s.cols) == s.rows
  {
    if s.cur < PageLen(s) {
      RowOfIndex(s.cur, s.rows, s.cols);
    } else {
      RowColOf(s.rows, 0, s.cols);
    }
  }

  function AtLeastOne(a: nat): nat { if a == 0 then 1 else a }

  /** CSI A: up by a rows, or to the first row when there are not that many. */
  function Up(s: ValidState, a: nat): (r: ValidState)
  {
    RowsApart(0, s.rows, s.cols);
    var up := s.cur - RowStart(AtLeastOne(a), s.cols);
    s.(cur := if up < 0 then CurCol(s) else up)
  }

  /** CSI B: down by a rows, or to the last row. */
  function Down(s: ValidState, a: nat): (r: ValidState)
  {
    RowsApart(0, s.rows, s.cols);
    var down := s.cur + RowStart(AtLeastOne(a), s.cols);
    s.(cur := if down >= PageLen(s) then PageLen(s) - s.cols + CurCol(s) else down)
  }

  /** Naming a row outside the scroll region resets the region. */
  function RegionFor(s: ValidState, row: int): (r: ValidState)
  {
    if s.top <= row < s.bottom then s else s.(top := 0, bottom := s.rows)
  }

  /** CSI d. */
  function VerticalPosition(s: ValidState, a: nat): (r: ValidState)
  {
    var row := if a >= s.rows then s.rows else a;
    Clamp(RegionFor(s, row - 1).(cur := RowStart(row, s.cols) - s.cols + CurCol(s)))
  }

  /** CSI C: at most to the last column. */
  function Forward(s: ValidState, a: nat): (r: ValidState)
  {
    var room := s.cols - CurCol(s) - 1;
    Clamp(s.(cur := s.cur + if AtLeastOne(a) > room then room else AtLeastOne(a)))
  }

  /** CSI D: at most to the first column. */
  function Back(s: ValidState, a: nat): (r: ValidState)
  {
    Clamp(s.(cur := s.cur - if AtLeastOne(a) > CurCol(s) then CurCol(s) else AtLeastOne(a)))
  }

  /** CSI G and `. */
  function ToColumn(s: ValidState, a: nat): (r: ValidState)
  {
    Clamp(s.(cur := s.cur + ((if a > s.cols then s.cols else a) - 1) - CurCol(s)))
  }

  /** CSI A, B, C, D, d, G and `: relative and one-coordinate cursor moves. */
  function MoveCursor(s: ValidState, cmd: char, a: nat): (r: ValidState)
  {
    match cmd
    case 'A' => Up(s, a)
    case 'B' => Down(s, a)
    case 'C' => Forward(s, a)
    case 'D' => Back(s, a)
    case 'd' => VerticalPosition(s, a)
    case _ => ToColumn(s, a)
  }

  /** CSI H and CSI f: cursor position. */
  function CursorPosition(s: ValidState, a1: nat, a2: nat): (r: ValidState)
  {
    var row := if a1 > s.rows then s.rows else AtLeastOne(a1);
    var col := if a2 > s.cols then s.cols else AtLeastOne(a2);
    var s1 := if s.originMode then s else RegionFor(s, row - 1);
    var row1 := if s.originMode then row + s.top else row;
    Clamp(s1.(cur := RowStart(row1 - 1, s.cols) + col - 1, wrapped := false))
  }

  /** CSI J. */
  function EraseDisplay(s: ValidState, mode: nat): ValidOutcome {
    if mode == 1 then EraseOrOutside(s, 0, s.cur + 1)
    else if mode == 2 then EraseOrOutside(s, 0, PageLen(s))
    else EraseOrOutside(s, s.cur, PageLen(s) - s.cur)
  }

  /** CSI K. */
  function EraseLine(s: ValidState, mode: nat): ValidOutcome {
    RowAroundCursor(s);
    var col := CurCol(s);
    if mode == 1 then EraseOrOutside(s, s.cur - col, col + 1)
    else if mode == 2 then EraseOrOutside(s, s.cur - col, s.cols)
    else EraseOrOutside(s, s.cur, s.cols - col)
  }

  /** The cells from the cursor to the end of its row. */
  function Tail(s: ValidState): (tail: Line)
    requires s.cur < PageLen(s)
    ensures |tail| == s.cols - CurCol(s)
  {
    RowAroundCursor(s);
    s.page[s.cur..s.cur + s.cols - CurCol(s)]
  }

  function WithTail(s: ValidState, tail: Line): (r: ValidState)
    requires s.cur < PageLen(s) && |tail| == s.cols - CurCol(s)
  {
    RowAroundCursor(s);
    s.(page := Put(s.page, s.cur, tail))
  }

  /** CSI @, P and X. With parameter 0 nothing is moved or erased. */
  function EditCells(s: ValidState, cmd: char, a: nat): ValidOutcome {
    if a == 0 then Done(s)
    else if s.cur == PageLen(s) then Outside
    else
      RowAroundCursor(s);
      var n := Min(a, s.cols - CurCol(s));
      match cmd
      case '@' => Done(WithTail(s, InsertCells(Tail(s), n, Blank(s))))
      case 'P' => Done(WithTail(s, DeleteCells(Tail(s), n, Blank(s))))
      case _ => EraseOrOutside(s, s.cur, n)
  }

  predicate CursorInRegion(s: State) {
    TopCell(s) <= s.cur < BottomCell(s)
  }

  /** CSI L and M, with the scroll region starting at the cursor's row while the loop runs. */
  function EditLines(s: ValidState, cmd: char, a: nat): ValidState
  {
    hide AllOfLength, RowStart, InsertLines, DeleteLines;
    if !CursorInRegion(s) then s
    else
      CursorRowInRegion(s);
      LinesKeepValid(s, RowAt(s.cur, s.cols), a);
      var s1 := s.(top := RowAt(s.cur, s.cols));
      if cmd == 'L' then InsertLines(s1, a).(top := s.top)
      else if s1.top + 1 < s1.bottom then DeleteLines(s1, a).(top := s.top)
      else s
  }

  /** Setting the region's top, running a loop and setting it back leaves a valid state. */
  lemma LinesKeepValid(s: ValidState, top: nat, a: nat)
    requires top < s.bottom
    ensures WellFormed(s.(top := top))
    ensures Valid(InsertLines(s.(top := top), a).(top := s.top))
    ensures Valid(DeleteLines(s.(top := top), a).(top := s.top))
  {
    hide AllOfLength, RowStart, InsertLines, DeleteLines;
  }

  lemma CursorRowInRegion(s: ValidState)
    requires CursorInRegion(s)
    ensures s.top <= RowAt(s.cur, s.cols) < s.bottom
  {
    RowColAt(s.cur, s.cols);
    RowsApart(RowAt(s.cur, s.cols), s.top, s.cols);
    RowsApart(RowAt(s.cur, s.cols), s.bottom, s.cols);
  }

  lemma OutsideRegion(s: ValidState, cmd: char, a: nat)
    ensures !CursorInRegion(s) ==> EditLines(s, cmd, a) == s
  {
  }

  lemma EditLinesIs(s: ValidState, cmd: char, a: nat)
    requires CursorInRegion(s)
    ensures s.top <= RowAt(s.cur, s.cols) < s.bottom
    ensures var s1 := s.(top := RowAt(s.cur, s.cols));
            EditLines(s, cmd, a) ==
            if cmd == 'L' then InsertLines(s1, a).(top := s.top)
            else if s1.top + 1 < s1.bottom then DeleteLines(s1, a).(top := s.top) else s
  {
    hide RowStart, AllOfLength, InsertLines, DeleteLines, RowAt;
    CursorRowInRegion(s);
  }

  /** CSI ? h and CSI ? l. */
  function DecMode(s: ValidState, on: bool, mode: nat): (r: ValidState)
  {
    hide AllOfLength, RowStart;
    RegionInPage(s);
    if mode == 1 then s.(cursorKeys := on)
    else if mode == 3 then Erase(s.(cur := 0), 0, PageLen(s))
    else if mode == 25 then s.(hidden := !on)
    else if mode == 6 then s.(originMode := on, cur := if on then TopCell(s) else 0, wrapped := false)
    else s
  }

  /** CSI m: one graphic rendition parameter; None where the command stops. */
  function Rendition(attr: bv8, arg: nat): (r: (bool, bv8)) {
    if arg == 0 then (true, 0)
    else if arg in {1, 4, 5, 7, 22, 24, 25, 27, 30, 31, 32, 33, 34, 35, 36, 37} then
      (true, (attr & 0xF8) | ((37 - arg) as bv8))
    else if arg == 39 then (true, attr & 0xF8)
    else if 40 <= arg <= 47 then (true, (attr & 0xC7) | (((47 - arg) as bv8) << 3))
    else if arg == 49 then (true, attr & 0xC7)
    else (false, attr)
  }

  function Renditions(attr: bv8, args: seq<nat>): bv8
    decreases |args|
  {
    if args == [] then attr
    else
      var (more, attr1) := Rendition(attr, args[0]);
      if more then Renditions(attr1, args[1..]) else attr1
  }

  function SetRendition(s: ValidState, args: Args): (r: ValidState)
  {
    var list := if args.n == 0 then [0] else if args.n == 1 then [args.a1]
                else if args.n == 2 then [args.a1, args.a2] else [args.a1, args.a2, args.a3];
    s.(attr := Renditions(s.attr, list))
  }

  /** CSI r: scroll region. */
  function SetRegion(s: ValidState, args: Args): (r: ValidState)
  {
    var first := if args.n == 0 then 1 else args.a1;
    var last := if args.n == 0 then s.rows else args.a2;
    if 1 <= first < last <= s.rows then
      Clamp(s.(top := first - 1, bottom := last, cur := RowStart(first - 1, s.cols)))
    else s
  }

  /** do_csi, once the sequence is complete. */
  function CsiStep(s: ValidState, cmd: char, mark: char, args: Args): (r: Outcome)
    ensures r.Done? ==> Valid(r.s)
  {
    match cmd
    case 'A' => Done(MoveCursor(s, cmd, args.a1))
    case 'B' => Done(MoveCursor(s, cmd, args.a1))
    case 'C' => Done(MoveCursor(s, cmd, args.a1))
    case 'D' => Done(MoveCursor(s, cmd, args.a1))
    case 'd' => Done(MoveCursor(s, cmd, args.a1))
    case 'G' => Done(MoveCursor(s, cmd, args.a1))
    case '`' => Done(MoveCursor(s, cmd, args.a1))
    case 'H' => Done(CursorPosition(s, args.a1, args.a2))
    case 'f' => Done(CursorPosition(s, args.a1, args.a2))
    case 'J' => EraseDisplay(s, if args.n == 0 then 0 else args.a1)
    case 'K' => EraseLine(s, if args.n == 0 then 0 else args.a1)
    case '@' => EditCells(s, cmd, args.a1)
    case 'P' => EditCells(s, cmd, args.a1)
    case 'X' => EditCells(s, cmd, args.a1)
    case 'L' => Done(EditLines(s, cmd, args.a1))
    case 'M' => Done(EditLines(s, cmd, args.a1))
    case 'h' => Done(if mark == '?' then DecMode(s, true, args.a1) else s)
    case 'l' => Done(if mark == '?' then DecMode(s, false, args.a1) else s)
    case 'm' => Done(SetRendition(s, args))
    case 'r' => Done(SetRegion(s, args))
    case _ => Done(s)
  }

  /** LF and NEL, before the scrolling: a pending wrap has already gone to the next row. */
  function LineFeed(s: ValidState): (r: FormedState)
    ensures 0 <= r.cur
  {
    if s.wrapped then s.(wrapped := false) else s.(cur := s.cur + s.cols)
  }

  /** The line drawing characters that replace 0x60..0x7e in graphics mode. */
  const SPECIAL_TABLE: string :=
    "?\U{b1}????\U{f8}\U{f1}??\U{d9}\U{bf}\U{da}\U{c0}\U{c5}??" +
    "\U{c4}??\U{c3}\U{b4}\U{c1}\U{c2}\U{b3}\U{f3}\U{f2}\U{e3}?\U{9c}\U{fa}?"

  predicate IsSpecial(s: State, c: char) {
    '\U{60}' <= c < '\U{7f}' && s.dographic && s.graphics
  }

  /** A line drawing character keeps the attribute of the cell. */
  function StoredCell(s: State, c: char): Cell
    requires 0 <= s.cur < |s.page|
  {
    if IsSpecial(s, c) then
      assert |SPECIAL_TABLE| == 32;
      s.page[s.cur].(ch := SPECIAL_TABLE[c as int - 0x60])
    else Cell(c, s.attr)
  }

  /** Storing a character at the cursor; col is the cursor's column before any scrolling. */
  function Store(s: FormedState, c: char, col: nat): (r: ValidState)
    requires 0 <= s.cur < PageLen(s)
  {
    hide RowStart, StoredCell;
    s.(page := s.page[s.cur := StoredCell(s, c)],
       wrapped := col == s.cols - 1 || (s.wrapped && IsSpecial(s, c)),
       cur := if s.cur + 1 > PageLen(s) then 0 else s.cur + 1)
  }

  /** CR: the start of the row, which is the row above when a wrap is pending. */
  function CarriageReturn(s: ValidState): (r: ValidState)
  {
    Clamp(s.(cur := s.cur - CurCol(s) - (if s.wrapped then s.cols else 0), wrapped := false))
  }

  /** TAB: the next multiple of 8, or the last column. */
  function Tab(s: ValidState): (r: ValidState)
  {
    var col := CurCol(s);
    Clamp(s.(cur := s.cur + if col >= s.cols - 8 then s.cols - 1 - col else 8 - col % 8))
  }

  function Backspace(s: ValidState): (r: ValidState)
  {
    Clamp(s.(cur := if CurCol(s) > 0 then s.cur - 1 else s.cur))
  }

  /** LF, and the second half of NEL. */
  function NextLine(s: ValidState): (r: ValidState)
  {
    var r := AutoScroll(LineFeed(s));
    RegionInPage(r);
    r
  }

  /** Any other character: scroll if the cursor has left the region, then store it. */
  function StoreNext(s: ValidState, c: char): (r: ValidState)
  {
    var s1 := AutoScroll(s);
    RegionInPage(s1);
    Store(s1, c, CurCol(s))
  }

  /** A character that does not start an escape sequence. */
  function PlainStep(s: ValidState, c: char): (r: ValidState)
  {
    if c == CR then CarriageReturn(s)
    else if c == SO then s.(dographic := true)
    else if c == SI then s.(dographic := false)
    else if c == BEL then s
    else if c == TAB then Tab(s)
    else if c == BS then Backspace(s)
    else if c == LF then NextLine(s)
    else StoreNext(s, c)
  }

  /** ESC M: up one row, scrolling down at (or above) the top of the region. */
  function ReverseIndex(s: ValidState): (r: ValidState)
  {
    var up := s.cur - s.cols;
    Clamp((if up < TopCell(s) then ScrollDown(s) else s.(cur := up)).(wrapped := false))
  }

  /** ESC followed by one character that is not [ ( ) or #. */
  function EscapeStep(s: ValidState, c: char): (r: ValidState)
  {
    match c
    case 'c' => s.(cur := 0, history := [])
    case 'D' => Clamp(s.(cur := s.cur + s.cols))
    case 'E' =>
      RowAroundCursor(s);
      NextLine(s.(cur := s.cur - CurCol(s)))
    case 'M' => ReverseIndex(s)
    case _ => s
  }

  function CharsetStep(s: ValidState, bank: char, c: char): (r: ValidState)
  {
    if c == '0' then (if bank == '(' then s.(graphics := true, dographic := true) else s.(dographic := true))
    else if c == 'B' then s.(graphics := false, dographic := false)
    else s
  }

  /** ESC # 8, the screen alignment display. */
  function DecStep(s: ValidState, c: char): (r: ValidState)
  {
    if c == '8' then s.(page := Fill(|s.page|, Cell('E', s.attr))) else s
  }

  function Step(s: ValidState, t: Token): (r: Outcome)
    ensures r.Done? ==> Valid(r.s)
  {
    match t
    case Plain(c) => Done(PlainStep(s, c))
    case Csi(cmd, mark, params) => CsiStep(s, cmd, mark, ParseArgs(params))
    case Charset(bank, c) => Done(CharsetStep(s, bank, c))
    case Dec(c) => Done(DecStep(s, c))
    case Escape(c) => Done(EscapeStep(s, c))
  }

  predicate SameSize(s: State, t: State) { s.rows == t.rows && s.cols == t.cols }

  lemma VerticalKeepsSize(s: ValidState, a: nat)
    ensures SameSize(s, Up(s, a)) && SameSize(s, Down(s, a)) && SameSize(s, VerticalPosition(s, a))
  {
    hide Valid, WellFormed, RowStart, AllOfLength, Clamp, CurCol;
  }

  lemma HorizontalKeepsSize(s: ValidState, a: nat)
    ensures SameSize(s, Forward(s, a)) && SameSize(s, Back(s, a)) && SameSize(s, ToColumn(s, a))
  {
    hide Valid, WellFormed, RowStart, AllOfLength, Clamp, CurCol;
  }

  lemma PositionKeepsSize(s: ValidState, a1: nat, a2: nat)
    ensures SameSize(s, CursorPosition(s, a1, a2))
  {
    hide Valid, WellFormed, RowStart, AllOfLength, Clamp, CurCol;
  }

  lemma MovesKeepSize(s: ValidState, cmd: char, a1: nat, a2: nat)
    ensures SameSize(s, MoveCursor(s, cmd, a1)) && SameSize(s, CursorPosition(s, a1, a2))
  {
    hide Up, Down, VerticalPosition, Forward, Back, ToColumn, CursorPosition, SameSize;
    VerticalKeepsSize(s, a1);
    HorizontalKeepsSize(s, a1);
    PositionKeepsSize(s, a1, a2);
  }

  lemma ErasesKeepSize(s: ValidState, mode: nat)
    ensures EraseDisplay(s, mode).Done? ==> SameSize(s, EraseDisplay(s, mode).s)
    ensures EraseLine(s, mode).Done? ==> SameSize(s, EraseLine(s, mode).s)
  {
    hide Valid, WellFormed, RowStart, AllOfLength, Put, CurCol;
  }

  lemma EditsKeepSize(s: ValidState, cmd: char, a: nat)
    ensures EditCells(s, cmd, a).Done? ==> SameSize(s, EditCells(s, cmd, a).s)
    ensures SameSize(s, EditLines(s, cmd, a))
  {
    hide EditCells, EditLines, SameSize;
    EditCellsKeepsSize(s, cmd, a);
    EditLinesKeepsSize(s, cmd, a);
  }

  lemma EditCellsKeepsSize(s: ValidState, cmd: char, a: nat)
    ensures EditCells(s, cmd, a).Done? ==> SameSize(s, EditCells(s, cmd, a).s)
  {
    hide Valid, WellFormed, RowStart, AllOfLength, Put, InsertCells, DeleteCells, CurCol, Tail;
    RowAroundCursor(s);
  }

  lemma EditLinesKeepsSize(s: ValidState, cmd: char, a: nat)
    ensures SameSize(s, EditLines(s, cmd, a))
  {
    hide Valid, WellFormed, RowStart, AllOfLength, InsertLines, DeleteLines, RowAt;
    if CursorInRegion(s) {
      CursorRowInRegion(s);
    }
  }

  lemma DecModeKeepsSize(s: ValidState, on: bool, mode: nat)
    ensures SameSize(s, DecMode(s, on, mode))
  {
    hide RowStart, AllOfLength, Erase, Put;
    if mode == 3 {
      assert DecMode(s, on, mode) == Erase(s.(cur := 0), 0, PageLen(s));
      EraseKeepsSize(s.(cur := 0), 0, PageLen(s));
    }
  }

  lemma EraseKeepsSize(s: FormedState, start: int, n: int)
    requires 0 <= start && 0 <= n && start + n <= |s.page|
    ensures SameSize(s, Erase(s, start, n))
  {
  }

  lemma SettingsKeepSize(s: ValidState, on: bool, args: Args)
    ensures SameSize(s, DecMode(s, on, args.a1))
    ensures SameSize(s, SetRendition(s, args)) && SameSize(s, SetRegion(s, args))
  {
    hide RowStart, AllOfLength, Renditions, DecMode, Clamp;
    DecModeKeepsSize(s, on, args.a1);
  }

  lemma CsiKeepsSize(s: ValidState, cmd: char, mark: char, args: Args)
    ensures CsiStep(s, cmd, mark, args).Done? ==> SameSize(s, CsiStep(s, cmd, mark, args).s)
  {
    hide SameSize, MoveCursor, CursorPosition, EraseDisplay, EraseLine, EditCells, EditLines, DecMode, SetRendition,
         SetRegion;
    MovesKeepSize(s, cmd, args.a1, args.a2);
    ErasesKeepSize(s, if args.n == 0 then 0 else args.a1);
    EditsKeepSize(s, cmd, args.a1);
    SettingsKeepSize(s, cmd == 'h', args);
    SizeOfItself(s);
  }

  lemma SizeOfItself(s: State)
    ensures SameSize(s, s)
  {
  }

  lemma ControlsKeepSize(s: ValidState)
    ensures SameSize(s, CarriageReturn(s)) && SameSize(s, Tab(s)) && SameSize(s, Backspace(s))
    ensures SameSize(s, ReverseIndex(s)) && SameSize(s, NextLine(s))
  {
    hide Valid, WellFormed, RowStart, AllOfLength, Clamp, CurCol, AutoScroll, ScrollDown;
  }

  lemma StoreKeepsSize(s: ValidState, c: char)
    ensures SameSize(s, StoreNext(s, c))
  {
    hide RowStart, AllOfLength, StoredCell, CurCol, AutoScroll;
    RegionInPage(AutoScroll(s));
  }

  lemma PlainKeepsSize(s: ValidState, c: char)
    ensures SameSize(s, PlainStep(s, c))
  {
    hide CarriageReturn, Tab, Backspace, NextLine, StoreNext, RowStart, AllOfLength;
    if c in {CR, TAB, BS, LF} {
      ControlsKeepSize(s);
    } else if c !in {SO, SI, BEL} {
      StoreKeepsSize(s, c);
      assert PlainStep(s, c) == StoreNext(s, c);
    }
  }

  lemma NewLineKeepsSize(s: ValidState)
    ensures EscapeStep(s, 'E') == NextLine(s.(cur := s.cur - CurCol(s))) && SameSize(s, EscapeStep(s, 'E'))
  {
    hide RowStart, AllOfLength, CurCol, AutoScroll;
  }

  lemma IndexKeepsSize(s: ValidState)
    ensures SameSize(s, EscapeStep(s, 'D')) && SameSize(s, EscapeStep(s, 'M')) && SameSize(s, EscapeStep(s, 'c'))
  {
    hide RowStart, AllOfLength, ReverseIndex, Clamp;
    ControlsKeepSize(s);
  }

  lemma EscapeKeepsSize(s: ValidState, c: char)
    ensures SameSize(s, EscapeStep(s, c))
  {
    hide RowStart, AllOfLength;
    if c == 'E' {
      NewLineKeepsSize(s);
    } else if c in {'D', 'M', 'c'} {
      IndexKeepsSize(s);
    } else {
      assert EscapeStep(s, c) == s;
    }
  }

  /** No command changes the size of the page. */
  lemma StepKeepsSize(s: ValidState, t: Token)
    ensures Step(s, t).Done? ==> SameSize(s, Step(s, t).s)
  {
    hide CsiStep, PlainStep, EscapeStep;
    match t
    case Plain(c) => PlainKeepsSize(s, c);
    case Csi(cmd, mark, params) => CsiKeepsSize(s, cmd, mark, ParseArgs(params));
    case Charset(_, _) =>
    case Dec(_) =>
    case Escape(c) => EscapeKeepsSize(s, c);
  }
}
