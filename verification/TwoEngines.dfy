/** The two engines against each other: which input, event by event and stream by stream, leaves the same screen. */
module TwoEngines {
  import opened Blocks
  import opened Cells
  import opened Decimal
  import opened Strings
  import opened ControlCharacters
  import L = LegacyTerminal
  import LC = LegacyCommands
  import LS = LegacyStream
  import LE = LegacyEditing
  import P = AnsiParser
  import M = ModernTerminal

  // The repository keeps both engines (docs/adr/0002-dual-stack-coexistence.md). The modern cursor column `cols`
  // corresponds to the legacy cursor on the next row's first cell with kf_wrapped set.

  /** Equal grids, and the same cursor: a pending wrap is column cols here and kf_wrapped there. */
  ghost predicate Related(l: L.State, m: M.Screen) {
    && L.Valid(l) && M.Valid(m)
    && l.rows == m.rows && l.cols == m.cols
    && l.top == 0 && l.bottom == l.rows && !l.originMode && !l.graphics && l.attr == 0
    && l.page == m.cells
    && l.cur == M.CursorIndex(m)
    && (l.wrapped <==> m.col == m.cols)
  }

  lemma InitiallyRelated(rows: nat, cols: nat)
    requires 1 <= rows && 1 <= cols
    ensures Related(L.Initial(rows, cols), M.Initial(rows, cols))
    ensures L.Initial(rows, cols).rows == rows && L.Initial(rows, cols).cols == cols
  {
    FirstRow(cols);
  }

  /** The legacy cursor's column: 0 while a wrap is pending. */
  lemma CursorColumn(l: L.State, m: M.Screen)
    requires Related(l, m)
    ensures m.col < m.cols ==> LC.CurCol(l) == m.col
    ensures m.col == m.cols ==> LC.CurCol(l) == 0
  {
    if m.col < m.cols {
      RowColOf(m.row, m.col, m.cols);
    } else {
      NextRow(m.row, m.cols);
      RowColOf(m.row + 1, 0, m.cols);
    }
  }

  /** Scrolling the whole page does the same to both grids. */
  lemma SameScroll(l: L.State, m: M.ValidScreen)
    requires L.WellFormed(l) && l.rows == m.rows >= 2 && l.cols == m.cols
    requires l.top == 0 && l.bottom == l.rows && l.attr == 0 && l.page == m.cells
    ensures L.ScrollUp(l).page == M.ScrollScreen(m).cells
  {
    hide ShiftUp;
    FirstRow(l.cols);
  }

  /** The modern screen just before it stores a character. */
  function ReadyToStore(m: M.ValidScreen): (r: M.ValidScreen)
    ensures r.col < r.cols
  {
    if m.col >= m.cols then M.AdvanceRow(m).(col := 0) else m
  }

  /** Wrapping (and scrolling, if need be) before a character is stored. */
  lemma SameWrap(l: L.State, m: M.Screen)
    requires Related(l, m) && l.rows >= 2
    ensures var l1, m1 := L.AutoScroll(l), ReadyToStore(m);
            && l1 == l.(page := l1.page, cur := l1.cur, history := l1.history)
            && l1.page == m1.cells && l1.cur == M.CursorIndex(m1) && LC.CurCol(l) == m1.col
  {
    hide ShiftUp, RowStart, LC.CurCol, L.ScrollUp, M.ScrollScreen, AllOfLength, L.AutoScroll;
    CursorColumn(l, m);
    M.CursorIndexInPage(m);
    LE.AutoScrollTurns(l);
    NextRow(m.row, m.cols);
    if m.col == m.cols && m.row == m.rows - 1 {
      L.RegionInPage(l);
      SameScroll(l.(cur := l.cur - l.cols), m);
      ScrollKeepsSize(m);
    }
  }

  lemma ScrollKeepsSize(m: M.ValidScreen)
    ensures M.ScrollScreen(m) == m.(cells := M.ScrollScreen(m).cells, dirty := M.ScrollScreen(m).dirty)
  {
  }

  /** A printable byte, at any column, wrap pending or not. */
  lemma PrintAgrees(l: L.State, m: M.Screen, c: char)
    requires Related(l, m) && l.rows >= 2 && c as int >= 32
    ensures Related(LC.PlainStep(l, c), M.PrintChar(m, c))
  {
    hide ShiftUp, RowStart, LC.CurCol, L.AutoScroll, M.AdvanceRow, AllOfLength;
    SameWrap(l, m);
    L.RegionInPage(L.AutoScroll(l));
    M.CursorIndexInPage(ReadyToStore(m));
  }

  lemma CarriageReturnAgrees(l: L.State, m: M.Screen)
    requires Related(l, m)
    ensures Related(LC.PlainStep(l, CR), M.PrintChar(m, '\r'))
  {
    hide RowStart, LC.CurCol, AllOfLength;
    CursorColumn(l, m);
    M.CursorIndexInPage(m);
  }

  /** LF: with a wrap pending the legacy engine has already left the row, and goes to column 0. */
  lemma LineFeedAgrees(l: L.State, m: M.Screen)
    requires Related(l, m) && l.rows >= 2
    ensures Related(LC.PlainStep(l, LF), M.PrintChar(m, '\n')) <==> m.col < m.cols
  {
    if m.col == m.cols {
      LineFeedAtWrap(l, m);
    } else if m.row + 1 < m.rows {
      LineFeedDown(l, m);
    } else {
      LineFeedScrolls(l, m);
    }
  }

  lemma LineFeedAtWrap(l: L.State, m: M.Screen)
    requires Related(l, m) && m.col == m.cols
    ensures !Related(LC.PlainStep(l, LF), M.PrintChar(m, '\n'))
  {
    hide RowStart, AllOfLength, L.AutoScroll, M.ScrollScreen;
  }

  lemma LineFeedDown(l: L.State, m: M.Screen)
    requires Related(l, m) && m.col < m.cols && m.row + 1 < m.rows
    ensures Related(LC.PlainStep(l, LF), M.PrintChar(m, '\n'))
  {
    hide RowStart, AllOfLength, L.AutoScroll, M.ScrollScreen;
    M.CursorIndexInPage(m);
    NextRow(m.row, m.cols);
    RowsApart(m.row + 1, m.rows, m.cols);
    L.AutoScrollStops(LC.LineFeed(l));
  }

  lemma LineFeedScrolls(l: L.State, m: M.Screen)
    requires Related(l, m) && m.col < m.cols && m.row + 1 == m.rows >= 2
    ensures Related(LC.PlainStep(l, LF), M.PrintChar(m, '\n'))
  {
    hide RowStart, AllOfLength, L.AutoScroll, L.ScrollUp, M.ScrollScreen;
    M.CursorIndexInPage(m);
    NextRow(m.row, m.cols);
    var l1 := LC.LineFeed(l);
    LE.AutoScrollOnce(l1);
    SameScroll(l1.(cur := l.cur), m);
    ScrollKeepsSize(m);
  }

  lemma BackspaceAgrees(l: L.State, m: M.Screen)
    requires Related(l, m)
    ensures Related(LC.PlainStep(l, BS), M.PrintChar(m, '\U{08}')) <==> m.col < m.cols
  {
    hide RowStart, LC.CurCol, AllOfLength;
    CursorColumn(l, m);
    M.CursorIndexInPage(m);
  }

  /** TAB: near the right margin the legacy engine stops in the last column, the modern one wraps. */
  lemma TabAgrees(l: L.State, m: M.Screen)
    requires Related(l, m) && l.rows >= 2 && l.cols >= 2
    ensures Related(LC.PlainStep(l, TAB), M.PrintChar(m, '\t')) <==>
            m.col < m.cols && (m.col + 8 < m.cols || M.NextTab(m.col) == m.cols - 1)
  {
    hide RowStart, LC.CurCol, AllOfLength, M.ScrollScreen;
    CursorColumn(l, m);
    M.CursorIndexInPage(m);
    NextRow(m.row, m.cols);
    ScrollKeepsSize(m);
  }

  /** How the two engines read the same parameters. */
  lemma SameParameters(p: string)
    requires IsParams(p)
    ensures var args := LC.ParseArgs(p);
            && P.Param1(p) == (if args.n == 0 then 0 else args.a1)
            && (args.n == 0 ==> args == LC.Args(0, 1, 1, 1))
            && (p == [] ==> args.n == 0 && P.Param2(p) == 0)
            && (p != [] && p[0] != ';' ==> LC.AtLeastOne(args.a2) == LC.AtLeastOne(P.Param2(p)))
            && (p != [] && p[0] == ';' ==> args.n == 0 && P.Param2(p) == Atoi(p[1..]))
  {
    hide DigitsEnd, Find, Value, IsParams, Atoi;
    FirstParameter(p);
    var e1 := DigitsEnd(p, 0);
    if e1 < |p| {
      DigitsEndShift(p, e1 + 1);
    }
  }

  lemma FirstParameter(p: string)
    requires IsParams(p)
    ensures var e1 := DigitsEnd(p, 0);
            && Find(p, ';') == e1
            && Atoi(p[..e1]) == Value(p[0..e1])
            && (e1 == 0 <==> p == [] || p[0] == ';')
            && (e1 == 0 ==> Value(p[0..e1]) == 0)
  {
    hide Find, DigitsEnd, IsParams;
    SeparatorEndsDigits(p);
    var e1 := DigitsEnd(p, 0);
    assert p[..e1] == p[0..e1] && p[..e1][0..e1] == p[0..e1] && p[..e1][..e1] == p[0..e1];
    DigitsEndAt(p[..e1], 0, e1);
  }

  lemma SeparatorEndsDigits(p: string)
    requires IsParams(p)
    ensures Find(p, ';') == DigitsEnd(p, 0)
    ensures DigitsEnd(p, 0) == 0 <==> p == [] || p[0] == ';'
  {
    hide Find;
    var e1, sep := DigitsEnd(p, 0), Find(p, ';');
    assert sep < |p| ==> !IsDigit(p[sep]);
    assert e1 < |p| ==> p[e1] == ';';
  }

  lemma DigitsEndShift(p: string, k: nat)
    requires k <= |p|
    ensures Atoi(p[k..]) == Value(p[k..DigitsEnd(p, k)])
    ensures DigitsEnd(p, k) == k ==> Atoi(p[k..]) == 0
  {
    var e := DigitsEnd(p, k);
    assert p[k..][0..e - k] == p[k..e];
    assert e < |p| ==> p[k..][e - k] == p[e];
    DigitsEndAt(p[k..], 0, e - k);
    assert p[k..][..e - k] == p[k..e];
  }

  /** CUP with coordinates both engines clamp to the same cell. */
  lemma MoveAgrees(l: L.State, m: M.Screen, a1: nat, a2: nat, b1: nat, b2: nat)
    requires Related(l, m) && LC.AtLeastOne(a1) == LC.AtLeastOne(b1) && LC.AtLeastOne(a2) == LC.AtLeastOne(b2)
    ensures Related(LC.CursorPosition(l, a1, a2), M.MoveTo(m, b1, b2))
  {
    hide RowStart, AllOfLength;
    M.CursorIndexInPage(M.MoveTo(m, b1, b2));
  }

  /** Which parameters of CUP the two engines understand alike. */
  predicate CupAlike(p: string) {
    p == [] || p[0] != ';' || Atoi(p[1..]) <= 1
  }

  lemma CupAgrees(l: L.State, m: M.Screen, p: string)
    requires Related(l, m) && l.cols >= 2 && IsParams(p)
    ensures var args := LC.ParseArgs(p);
            Related(LC.CursorPosition(l, args.a1, args.a2), M.MoveTo(m, P.Param1(p), P.Param2(p))) <==> CupAlike(p)
  {
    hide RowStart, AllOfLength, Atoi, LC.ParseArgs, P.Param1, P.Param2, Related, LC.CursorPosition, M.MoveTo;
    SameParameters(p);
    var args := LC.ParseArgs(p);
    if CupAlike(p) {
      MoveAgrees(l, m, args.a1, args.a2, P.Param1(p), P.Param2(p));
    } else {
      MoveDiffers(l, m, P.Param1(p), P.Param2(p));
    }
  }

  lemma MoveDiffers(l: L.State, m: M.Screen, b1: nat, b2: nat)
    requires Related(l, m) && l.cols >= 2 && b2 > 1
    ensures !Related(LC.CursorPosition(l, 1, 1), M.MoveTo(m, b1, b2))
  {
    hide AllOfLength;
    FirstRow(l.cols);
    MovedOffOrigin(m, b1, b2);
  }

  lemma MovedOffOrigin(m: M.ValidScreen, b1: nat, b2: nat)
    requires m.cols >= 2 && b2 > 1
    ensures M.CursorIndex(M.MoveTo(m, b1, b2)) > 0
  {
  }

  /** Which ED the two engines carry out alike: mode 2 moves only the modern cursor; 3 and up differ. */
  ghost predicate EraseAlike(m: M.ValidScreen, mode: nat)
  {
    match mode
    case 0 => true
    case 1 => M.CursorIndex(m) < |m.cells|
    case 2 => M.CursorIndex(m) == 0
    case _ => forall i :: M.CursorIndex(m) <= i < |m.cells| ==> m.cells[i] == EMPTY
  }

  lemma EraseAgrees(l: L.State, m: M.Screen, mode: nat)
    requires Related(l, m)
    ensures var r := LC.EraseDisplay(l, mode);
            (r.Done? && Related(r.s, M.EraseScreen(m, mode))) <==> EraseAlike(m, mode)
  {
    hide LC.EraseDisplay, M.EraseScreen, Related;
    if mode <= 1 {
      ErasePartAgrees(l, m, mode);
    } else if mode == 2 {
      EraseAllAgrees(l, m);
    } else {
      EraseNoneAgrees(l, m, mode);
    }
  }

  lemma ErasePartAgrees(l: L.State, m: M.Screen, mode: nat)
    requires Related(l, m) && mode <= 1
    ensures var r := LC.EraseDisplay(l, mode);
            (r.Done? && Related(r.s, M.EraseScreen(m, mode))) <==> EraseAlike(m, mode)
  {
    hide RowStart, AllOfLength, M.MarkedRows, Put;
    M.CursorIndexInPage(m);
  }

  lemma EraseAllAgrees(l: L.State, m: M.Screen)
    requires Related(l, m)
    ensures var r := LC.EraseDisplay(l, 2);
            (r.Done? && Related(r.s, M.EraseScreen(m, 2))) <==> EraseAlike(m, 2)
  {
    hide RowStart, AllOfLength, Put;
    M.CursorIndexInPage(m);
    FirstRow(m.cols);
    EraseAll(l.page);
  }

  lemma EraseNoneAgrees(l: L.State, m: M.Screen, mode: nat)
    requires Related(l, m) && mode > 2
    ensures var r := LC.EraseDisplay(l, mode);
            (r.Done? && Related(r.s, M.EraseScreen(m, mode))) <==> EraseAlike(m, mode)
  {
    hide RowStart, AllOfLength, Put;
    M.CursorIndexInPage(m);
    PutEmpty(m.cells, M.CursorIndex(m));
  }

  lemma EraseAll(page: seq<Cell>)
    ensures Put(page, 0, Fill(|page|, EMPTY)) == Fill(|page|, EMPTY)
  {
  }

  lemma PutEmpty(cells: seq<Cell>, from: nat)
    requires from <= |cells|
    ensures Put(cells, from, Fill(|cells| - from, EMPTY)) == cells <==>
            forall i :: from <= i < |cells| ==> cells[i] == EMPTY
  {
    var r := Put(cells, from, Fill(|cells| - from, EMPTY));
    assert forall i :: from <= i < |cells| ==> r[i] == EMPTY;
  }

  /** BEL, SO and SI change nothing that is compared. */
  lemma IgnoredAgrees(l: L.State, m: M.Screen, c: char)
    requires Related(l, m) && c in {BEL, SO, SI}
    ensures Related(LC.PlainStep(l, c), M.PrintChar(m, c))
  {
  }

  /** The legacy engine stores the remaining control characters, the modern one drops them. */
  lemma StoredControlDiffers(l: L.State, m: M.Screen, c: char)
    requires Related(l, m) && l.rows >= 2 && l.cols >= 2
    requires c as int < 32 && c !in {BEL, SO, SI, CR, LF, BS, TAB}
    ensures !Related(LC.PlainStep(l, c), M.PrintChar(m, c))
  {
    hide RowStart, AllOfLength, LC.Store, L.ScrollUp;
    M.CursorIndexInPage(m);
    NextRow(m.row, m.cols);
    LE.AutoScrollTurns(l);
    LE.OverflowUnreachable(l, c);
    assert LC.PlainStep(l, c) == LC.StoreNext(l, c);
  }

  /** One unit of input both engines have a reading of. */
  datatype Event =
    | Byte(c: char)          // anything but ESC and NUL
    | Cup(params: string)    // ESC [ params H
    | Ed(params: string)     // ESC [ params J

  predicate IsEvent(e: Event) {
    if e.Byte? then e.c != ESC && e.c != NUL else IsParams(e.params)
  }

  function Bytes(e: Event): string {
    match e
    case Byte(c) => [c]
    case Cup(params) => [ESC, '['] + params + ['H']
    case Ed(params) => [ESC, '['] + params + ['J']
  }

  function LegacyToken(e: Event): LC.Token {
    match e
    case Byte(c) => LC.Plain(c)
    case Cup(params) => LC.Csi('H', ' ', params)
    case Ed(params) => LC.Csi('J', ' ', params)
  }

  function ModernAction(e: Event): P.Action {
    match e
    case Byte(c) => P.Print(c)
    case Cup(params) => P.CursorMove(P.Param1(params), P.Param2(params))
    case Ed(params) => P.EraseDisplay(P.Param1(params))
  }

  /** The input on which the engines agree, seen from the modern screen. */
  ghost predicate Alike(m: M.ValidScreen, e: Event)
  {
    match e
    case Byte(c) =>
      if c as int >= 32 || c in {CR, BEL, SO, SI} then true
      else if c == LF || c == BS then m.col < m.cols
      else if c == TAB then m.col < m.cols && (m.col + 8 < m.cols || M.NextTab(m.col) == m.cols - 1)
      else false
    case Cup(params) => CupAlike(params)
    case Ed(params) => EraseAlike(m, P.Param1(params))
  }

  /** From related states the engines stay related exactly on that input. */
  lemma StepAgrees(l: L.State, m: M.Screen, e: Event)
    requires Related(l, m) && l.rows >= 2 && l.cols >= 2 && IsEvent(e)
    ensures var r := LC.Step(l, LegacyToken(e));
            (r.Done? && Related(r.s, M.Apply(m, ModernAction(e)))) <==> Alike(m, e)
  {
    hide Related, LC.PlainStep, M.PrintChar, LC.CursorPosition, M.MoveTo, LC.EraseDisplay, M.EraseScreen,
         CupAlike, EraseAlike, LC.ParseArgs, P.Param1, P.Param2, IsParams, L.Valid, M.Valid;
    match e
    case Byte(c) =>
      if c as int >= 32 {
        PrintAgrees(l, m, c);
      } else if c == CR {
        CarriageReturnAgrees(l, m);
      } else if c == LF {
        LineFeedAgrees(l, m);
      } else if c == BS {
        BackspaceAgrees(l, m);
      } else if c == TAB {
        TabAgrees(l, m);
      } else if c in {BEL, SO, SI} {
        IgnoredAgrees(l, m, c);
      } else {
        StoredControlDiffers(l, m, c);
      }
    case Cup(params) => CupAgrees(l, m, params);
    case Ed(params) =>
      SameParameters(params);
      EraseAgrees(l, m, P.Param1(params));
  }

  function Stream(events: seq<Event>): string {
    if events == [] then "" else Bytes(events[0]) + Stream(events[1..])
  }

  function Actions(events: seq<Event>): seq<P.Action> {
    if events == [] then [] else [ModernAction(events[0])] + Actions(events[1..])
  }

  /** Every event is one the engines agree on at the point where it arrives. */
  ghost predicate AllAlike(m: M.ValidScreen, events: seq<Event>)
    decreases |events|
  {
    events != [] ==>
      && IsEvent(events[0]) && Alike(m, events[0])
      && AllAlike(M.Apply(m, ModernAction(events[0])), events[1..])
  }

  /** The legacy lexer cuts an event off the front of any stream. */
  lemma LexEvent(e: Event, rest: string)
    requires IsEvent(e)
    ensures |Bytes(e)| > 0
    ensures LS.Lex(Bytes(e) + rest) == LS.Complete(LegacyToken(e), |Bytes(e)|)
  {
    if !e.Byte? {
      var buf := Bytes(e) + rest;
      assert forall k :: 2 <= k < 2 + |e.params| ==> buf[k] == e.params[k - 2];
      LS.ParamsEndAt(buf, 2, 2 + |e.params|);
      assert buf[2..2 + |e.params|] == e.params;
    }
  }

  /** The modern parser turns an event into its action. */
  lemma FeedEvent(params: string, e: Event)
    requires IsEvent(e)
    ensures var (p, actions) := P.Feed(P.Parser(P.Ground, params), Bytes(e));
            p.mode == P.Ground && actions == [ModernAction(e)]
  {
    match e
    case Byte(c) => P.FeedOne(P.Parser(P.Ground, params), c);
    case Cup(s) => P.FeedControl(params, s, 'H');
    case Ed(s) => P.FeedControl(params, s, 'J');
  }

  lemma {:induction false} FeedStream(params: string, m: M.ValidScreen, events: seq<Event>)
    requires AllAlike(m, events)
    ensures var (p, actions) := P.Feed(P.Parser(P.Ground, params), Stream(events));
            p.mode == P.Ground && actions == Actions(events)
    decreases |events|
  {
    hide Alike, Bytes, ModernAction, M.Valid;
    if events != [] {
      FeedEvent(params, events[0]);
      var p1 := P.Feed(P.Parser(P.Ground, params), Bytes(events[0])).0;
      FeedStream(p1.params, M.Apply(m, ModernAction(events[0])), events[1..]);
      P.FeedConcat(P.Parser(P.Ground, params), Bytes(events[0]), Stream(events[1..]));
    }
  }

  /** Whole streams: the legacy engine consumes every byte, and the screens stay related. */
  lemma {:induction false} StreamAgrees(l: L.State, m: M.Screen, events: seq<Event>)
    requires Related(l, m) && l.rows >= 2 && l.cols >= 2 && AllAlike(m, events)
    ensures NUL !in Stream(events)
    ensures var r := LS.Pass(l, Stream(events));
            r.Stopped? && r.rest == "" && Related(r.s, M.ApplyAll(m, Actions(events)))
    decreases |events|
  {
    hide Alike, Bytes, LegacyToken, ModernAction, LC.Step, LS.Lex, M.Apply, L.Valid, M.Valid;
    if events != [] {
      var e, rest := events[0], Stream(events[1..]);
      StepAgrees(l, m, e);
      LexEvent(e, rest);
      EventBytes(e);
      var l1, m1 := LC.Step(l, LegacyToken(e)).s, M.Apply(m, ModernAction(e));
      StreamAgrees(l1, m1, events[1..]);
      assert (Bytes(e) + rest)[|Bytes(e)|..] == rest;
      assert Actions(events)[1..] == Actions(events[1..]);
    }
  }

  /** A whole stream and one event more: the screens are related after it if and only if the event is alike. */
  lemma {:induction false} StreamThenEvent(l: L.State, m: M.Screen, events: seq<Event>, e: Event)
    requires Related(l, m) && l.rows >= 2 && l.cols >= 2 && AllAlike(m, events) && IsEvent(e)
    ensures NUL !in Stream(events + [e])
    ensures var r := LS.Pass(l, Stream(events + [e]));
            (r.Stopped? && r.rest == "" && Related(r.s, M.ApplyAll(m, Actions(events + [e]))))
            <==> Alike(M.ApplyAll(m, Actions(events)), e)
    decreases |events|
  {
    hide Alike, Bytes, LegacyToken, ModernAction, LC.Step, LS.Lex, M.Apply, L.Valid, M.Valid;
    if events == [] {
      StepAgrees(l, m, e);
      LexEvent(e, "");
      EventBytes(e);
      assert events + [e] == [e] && Stream([]) == "" && Actions([]) == [];
      assert Stream([e]) == Bytes(e) + "" && (Bytes(e) + "")[|Bytes(e)|..] == "";
      assert Actions([e]) == [ModernAction(e)] && [ModernAction(e)][1..] == [];
    } else {
      var d, rest := events[0], Stream(events[1..] + [e]);
      StepAgrees(l, m, d);
      LexEvent(d, rest);
      EventBytes(d);
      StreamThenEvent(LC.Step(l, LegacyToken(d)).s, M.Apply(m, ModernAction(d)), events[1..], e);
      assert (events + [e])[1..] == events[1..] + [e] && (Bytes(d) + rest)[|Bytes(d)|..] == rest;
      assert Actions(events)[1..] == Actions(events[1..]);
      assert Actions(events + [e])[1..] == Actions(events[1..] + [e]);
    }
  }

  /** A line of printable bytes. */
  function Keys(line: string): seq<Event> {
    if line == "" then [] else [Byte(line[0])] + Keys(line[1..])
  }

  /** Within the row, printable bytes move the cursor on by as many columns. */
  lemma {:induction false} KeysMove(m: M.ValidScreen, line: string)
    requires m.col + |line| <= m.cols && (forall i :: 0 <= i < |line| ==> line[i] as int >= 32)
    ensures AllAlike(m, Keys(line))
    ensures var m' := M.ApplyAll(m, Actions(Keys(line))); m'.col == m.col + |line| && m'.cols == m.cols
    decreases |line|
  {
    hide M.Valid, RowStart;
    if line != "" {
      var e := Byte(line[0]);
      assert Keys(line)[0] == e && Keys(line)[1..] == Keys(line[1..]);
      KeysMove(M.Apply(m, ModernAction(e)), line[1..]);
      assert Actions(Keys(line))[1..] == Actions(Keys(line[1..]));
    }
  }

  /** A run that separates the engines, from blank screens of any size: a full row of printable bytes, then LF. */
  lemma FullRowThenLineFeed(rows: nat, cols: nat, line: string)
    requires rows >= 2 && cols >= 2 && |line| == cols
    requires forall i :: 0 <= i < |line| ==> line[i] as int >= 32
    ensures var events := Keys(line) + [Byte(LF)];
            && NUL !in Stream(events)
            && var r := LS.Pass(L.Initial(rows, cols), Stream(events));
            !(r.Stopped? && r.rest == "" && Related(r.s, M.ApplyAll(M.Initial(rows, cols), Actions(events))))
  {
    hide AllAlike, Related, LS.Pass, M.ApplyAll, M.Valid, L.Valid;
    InitiallyRelated(rows, cols);
    KeysMove(M.Initial(rows, cols), line);
    StreamThenEvent(L.Initial(rows, cols), M.Initial(rows, cols), Keys(line), Byte(LF));
  }

  lemma {:induction false} NoEscHashInStream(m: M.ValidScreen, events: seq<Event>)
    requires AllAlike(m, events)
    ensures LS.NoEscHash(Stream(events))
    ensures Stream(events) != "" ==> Stream(events)[|Stream(events)| - 1] != ESC
    decreases |events|
  {
    hide Alike, ModernAction, M.Valid;
    if events != [] {
      var e := events[0];
      NoEscHashInStream(M.Apply(m, ModernAction(e)), events[1..]);
      EventBytes(e);
    }
  }

  lemma EventBytes(e: Event)
    requires IsEvent(e)
    ensures |Bytes(e)| > 0 && LS.NoEscHash(Bytes(e)) && Bytes(e)[|Bytes(e)| - 1] != ESC
    ensures NUL !in Bytes(e)
  {
  }

  /**
    Two engines, one screen. From blank screens of the same size, a stream of events the engines agree on
    leaves equal grids and corresponding cursors, however each engine's reads cut the stream into chunks.
    */
  lemma {:induction false} SameScreen(rows: nat, cols: nat, events: seq<Event>,
                                      legacyReads: seq<string>, modernReads: seq<string>)
    requires rows >= 2 && cols >= 2
    requires AllAlike(M.Initial(rows, cols), events)
    requires Concat(legacyReads) == Stream(events) && Concat(modernReads) == Stream(events)
    ensures var l := LS.Reads(L.Initial(rows, cols), "", legacyReads);
            var (p, actions) := P.FeedAll(P.Parser(P.Ground, ""), modernReads);
            && l.Stopped? && l.rest == "" && p.mode == P.Ground
            && Related(l.s, M.ApplyAll(M.Initial(rows, cols), actions))
  {
    hide AllAlike, LC.Step, P.FeedChar, M.Apply, L.Initial, M.Initial, Related;
    var l, m := L.Initial(rows, cols), M.Initial(rows, cols);
    InitiallyRelated(rows, cols);
    StreamAgrees(l, m, events);
    NoEscHashInStream(m, events);
    LS.ReadsOfText(l, legacyReads);
    LS.AppendText(l, Stream(events));
    P.ChunksDoNotMatter(P.Parser(P.Ground, ""), modernReads);
    FeedStream("", m, events);
  }
}
