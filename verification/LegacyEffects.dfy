/** What escapes, modes, colours, edits within a row, control and stored characters do in the legacy engine. */
module LegacyEffects {
  import opened Blocks
  import opened Numbers
  import opened Options
  import opened Cells
  import opened ControlCharacters
  import opened LegacyTerminal
  import opened LegacyCommands
  import opened LegacyStream
  import opened LegacySequences
  import opened LegacyCursor
  import opened LegacyEditing

  /** The bytes are consumed and leave the state t. */
  ghost predicate Leads(s: ValidState, text: Text, t: State) {
    Pass(s, text).Stopped? && Pass(s, text).s == t && Pass(s, text).rest == ""
  }

  lemma OneToken(s: ValidState, text: Text, t: Token)
    requires text != "" && Lex(text) == Complete(t, |text|) && Step(s, t).Done?
    ensures Leads(s, text, Step(s, t).s)
  {
    hide Step, Lex;
    assert text[|text|..] == "" && Pass(Step(s, t).s, "") == Stopped(Step(s, t).s, "");
  }

  // Escapes.

  /** RIS only moves the cursor and forgets the scrollback; IND never scrolls, at the last row B() stops it. */
  lemma EscapeSequences(s: ValidState, row: nat, col: nat)
    requires At(s, row, col)
    ensures Leads(s, [ESC, 'c'], s.(cur := 0, history := []))
    ensures Leads(s, [ESC, 'D'], s.(cur := Bounded(s, RowStart(row + 1, s.cols) + col)))
    ensures Leads(s, [ESC, 'E'], NextLine(s.(cur := RowStart(row, s.cols))))
    ensures Leads(s, [ESC, 'M'], ReverseIndex(s))
  {
    hide Leads, RowStart, AllOfLength, Clamp, Bounded, NextLine, ReverseIndex, CurCol;
    AtColumn(s, row, col);
    NextRow(row, s.cols);
    ClampIsBounded(s, RowStart(row + 1, s.cols) + col);
    OneToken(s, [ESC, 'c'], Escape('c'));
    OneToken(s, [ESC, 'D'], Escape('D'));
    OneToken(s, [ESC, 'E'], Escape('E'));
    OneToken(s, [ESC, 'M'], Escape('M'));
  }

  lemma OtherEscapes(s: ValidState, c: char)
    requires c !in "[()#cDEM" && c != NUL
    ensures Leads(s, [ESC, c], s)
  {
    hide Leads, RowStart, AllOfLength;
    OneToken(s, [ESC, c], Escape(c));
  }

  /** ESC ( 0 turns line drawing on, ESC ) 0 only readies it, and B turns it off in either set. */
  lemma CharsetSequences(s: ValidState, bank: char, c: char)
    requires bank in "()" && c != NUL
    ensures Leads(s, [ESC, bank, c],
                  if c == '0' then s.(graphics := s.graphics || bank == '(', dographic := true)
                  else if c == 'B' then s.(graphics := false, dographic := false)
                  else s)
  {
    hide Leads, RowStart, AllOfLength;
    OneToken(s, [ESC, bank, c], Charset(bank, c));
  }

  /** DECALN fills the page with E in the current colours; nothing else changes, the cursor included. */
  lemma AlignmentSequence(s: ValidState, c: char)
    requires c != NUL
    ensures Leads(s, [ESC, '#', c], if c == '8' then s.(page := Fill(|s.page|, Cell('E', s.attr))) else s)
  {
    hide Leads, RowStart, AllOfLength;
    OneToken(s, [ESC, '#', c], Dec(c));
  }

  // DEC modes.

  /** CSI ? n h and CSI ? n l. Mode 3 blanks the page, mode 6 homes the cursor to where the mode counts from. */
  lemma ModeSequences(s: ValidState, on: bool, fs: seq<Option<nat>>)
    ensures var text, n := Sequence(Some('?'), fs, if on then 'h' else 'l'), Arg(fs, 0);
            && (n == 1 ==> Leads(s, text, s.(cursorKeys := on)))
            && (n == 3 ==> Leads(s, text, s.(page := Fill(|s.page|, Blank(s)), cur := 0)))
            && (n == 6 ==> Leads(s, text, s.(originMode := on, wrapped := false,
                                             cur := if on then RowStart(s.top, s.cols) else 0)))
            && (n == 25 ==> Leads(s, text, s.(hidden := !on)))
            && (n !in {1, 3, 6, 25} ==> Leads(s, text, s))
  {
    hide RowStart, AllOfLength, Sequence, Pass, Leading, Put;
    RunSequence(s, Some('?'), fs, if on then 'h' else 'l');
    assert Put(s.page, 0, Fill(PageLen(s), Blank(s))) == Fill(|s.page|, Blank(s));
  }

  // Colours.

  /** The colours of an attribute: foreground in its low three bits, background in the next three. */
  function Foreground(attr: bv8): nat { (attr & 0x07) as nat }

  function Background(attr: bv8): nat { ((attr >> 3) & 0x07) as nat }

  /** The numbers that mean a foreground, or stand for one by way of the bits they set. */
  predicate IsFront(n: nat) { n in {1, 4, 5, 7, 22, 24, 25, 27} || 30 <= n <= 37 }

  predicate IsRendition(n: nat) { IsFront(n) || 40 <= n <= 47 || n in {0, 39, 49} }

  /**
    What one number of CSI m makes of an attribute. Colours count down from white. The numbers for bold, underline,
    blink and reverse, and those that end them, set bits of the background as well.
    */
  ghost predicate Paints(a: bv8, n: nat, b: bv8) {
    && (n == 0 ==> b == 0)
    && (IsFront(n) ==> Foreground(b) == (37 - n) % 8 && b >> 3 == (a >> 3) | (((37 - n) / 8) as bv8))
    && (n == 39 ==> Foreground(b) == 0 && b >> 3 == a >> 3)
    && (40 <= n <= 47 ==> Background(b) == 47 - n && b & 0xC7 == a & 0xC7)
    && (n == 49 ==> Background(b) == 0 && b & 0xC7 == a & 0xC7)
  }

  lemma FrontBits(a: bv8, n: bv8)
    requires n < 64
    ensures ((a & 0xF8) | n) & 0x07 == n & 0x07 && ((a & 0xF8) | n) >> 3 == (a >> 3) | (n >> 3)
  {
  }

  lemma BackBits(a: bv8, n: bv8)
    requires n < 8
    ensures (((a & 0xC7) | (n << 3)) >> 3) & 0x07 == n && ((a & 0xC7) | (n << 3)) & 0xC7 == a & 0xC7
  {
  }

  lemma NumberBits(n: nat)
    requires n < 64
    ensures (n as bv8) < 64 && (n < 8 ==> (n as bv8) < 8)
    ensures ((n as bv8) & 0x07) as nat == n % 8 && (n as bv8) >> 3 == (n / 8) as bv8
    ensures n < 8 ==> (n as bv8) as nat == n
  {
  }

  lemma RenditionPaints(a: bv8, n: nat)
    ensures Rendition(a, n).0 <==> IsRendition(n)
    ensures if IsRendition(n) then Paints(a, n, Rendition(a, n).1) else Rendition(a, n).1 == a
  {
    hide Paints;
    if IsFront(n) {
      FrontPaints(a, n);
    } else if 40 <= n <= 47 {
      BackPaints(a, n);
    } else if IsRendition(n) {
      DefaultPaints(a, n);
    }
  }

  lemma FrontPaints(a: bv8, n: nat)
    requires IsFront(n)
    ensures Rendition(a, n).0 && Paints(a, n, Rendition(a, n).1)
  {
    hide Background, Foreground, Rendition;
    FrontValue(a, n);
    FrontNumber(a, 37 - n);
  }

  lemma FrontNumber(a: bv8, n: nat)
    requires n < 64
    ensures Foreground((a & 0xF8) | (n as bv8)) == n % 8
    ensures ((a & 0xF8) | (n as bv8)) >> 3 == (a >> 3) | ((n / 8) as bv8)
  {
    hide Foreground;
    NumberBits(n);
    FrontMeans(a, n as bv8, n);
  }

  lemma FrontValue(a: bv8, n: nat)
    requires IsFront(n)
    ensures Rendition(a, n) == (true, (a & 0xF8) | ((37 - n) as bv8))
  {
  }

  lemma FrontMeans(a: bv8, k: bv8, n: nat)
    requires n < 64 && k < 64 && (k & 0x07) as nat == n % 8 && k >> 3 == (n / 8) as bv8
    ensures Foreground((a & 0xF8) | k) == n % 8 && ((a & 0xF8) | k) >> 3 == (a >> 3) | ((n / 8) as bv8)
  {
    FrontBits(a, k);
  }

  lemma BackPaints(a: bv8, n: nat)
    requires 40 <= n <= 47
    ensures Rendition(a, n).0 && Paints(a, n, Rendition(a, n).1)
  {
    hide Foreground;
    NumberBits(47 - n);
    BackBits(a, (47 - n) as bv8);
  }

  lemma DefaultPaints(a: bv8, n: nat)
    requires n in {0, 39, 49}
    ensures Rendition(a, n).0 && Paints(a, n, Rendition(a, n).1)
  {
    FrontBits(a, 0);
    BackBits(a, 0);
  }

  /** Numbers are taken one after the other, up to the first that means nothing. */
  ghost predicate Painted(a: bv8, ns: seq<nat>, b: bv8)
    decreases |ns|
  {
    if ns == [] || !IsRendition(ns[0]) then b == a else exists m :: Paints(a, ns[0], m) && Painted(m, ns[1..], b)
  }

  lemma {:induction false} RenditionsPaint(a: bv8, ns: seq<nat>)
    ensures Painted(a, ns, Renditions(a, ns))
    decreases |ns|
  {
    hide Rendition, Paints, IsRendition;
    if ns != [] {
      var (more, m) := Rendition(a, ns[0]);
      RenditionPaints(a, ns[0]);
      if more {
        RenditionsPaint(m, ns[1..]);
        assert Paints(a, ns[0], m) && Painted(m, ns[1..], Renditions(a, ns));
      }
    }
  }

  /** The numbers of a CSI m: at most three of its fields, up to the first empty one; a lone 0 when there is none. */
  function ColourList(fs: seq<Option<nat>>): seq<nat> {
    if Leading(fs) == 0 then [0]
    else
      var n := Min(Leading(fs), 3);
      seq(n, i requires 0 <= i < n => fs[i].value)
  }

  /** CSI m changes the current attribute only, as its numbers say in turn. */
  lemma RenditionSequence(s: ValidState, fs: seq<Option<nat>>)
    ensures var text := Sequence(None, fs, 'm');
            && Pass(s, text).Stopped? && Painted(s.attr, ColourList(fs), Pass(s, text).s.attr)
            && Leads(s, text, s.(attr := Pass(s, text).s.attr))
  {
    hide RowStart, AllOfLength, Sequence, Pass, Painted, Renditions;
    RunSequence(s, None, fs, 'm');
    RenditionsPaint(s.attr, ColourList(fs));
    NumbersAreArgs(fs);
  }

  lemma NumbersAreArgs(fs: seq<Option<nat>>)
    ensures var args := ArgsOf(fs);
            ColourList(fs) == if args.n == 0 then [0] else if args.n == 1 then [args.a1]
                           else if args.n == 2 then [args.a1, args.a2] else [args.a1, args.a2, args.a3]
  {
  }

  /** A colour or a rendition leaves every background alone if and only if it is a foreground colour. */
  lemma FrontKeepsBack(n: nat)
    requires IsFront(n)
    ensures (forall a :: Rendition(a, n).1 >> 3 == a >> 3) <==> 30 <= n <= 37
  {
    hide Rendition;
    forall a: bv8 ensures Rendition(a, n).1 >> 3 == (a >> 3) | (((37 - n) / 8) as bv8) {
      RenditionPaints(a, n);
    }
    var zero: bv8 := 0;
    assert Rendition(zero, n).1 >> 3 == (zero >> 3) | (((37 - n) / 8) as bv8);
  }

  // Edits within a row.

  function CellOf(s: FormedState, r: nat, c: nat): Cell
    requires r < s.rows && c < s.cols
  {
    RowsApart(r, s.rows, s.cols);
    s.page[RowStart(r, s.cols) + c]
  }

  /** The cell (r, c) is one of those from the cursor to the end of its row. */
  predicate InTail(row: nat, col: nat, r: nat, c: nat) { r == row && c >= col }

  lemma CellIndex(s: ValidState, row: nat, col: nat, r: nat, c: nat)
    requires At(s, row, col) && row < s.rows && r < s.rows && c < s.cols
    ensures RowStart(r, s.cols) + c < |s.page|
    ensures s.cur <= RowStart(r, s.cols) + c < s.cur + s.cols - col <==> InTail(row, col, r, c)
    ensures CurCol(s) == col && s.cur < PageLen(s)
  {
    hide AllOfLength, RowStart, CurCol;
    AtColumn(s, row, col);
    RowsApart(r, row, s.cols);
    RowsApart(r, s.rows, s.cols);
    RowsApart(row, s.rows, s.cols);
  }

  /** An edit rewrites the cells from the cursor to the end of its row. */
  lemma EditedCell(s: ValidState, t: Line, row: nat, col: nat, r: nat, c: nat)
    requires At(s, row, col) && row < s.rows && r < s.rows && c < s.cols
    requires |t| == s.cols - CurCol(s) && s.cur < PageLen(s)
    ensures CurCol(s) == col && WithTail(s, t) == s.(page := WithTail(s, t).page)
    ensures CellOf(WithTail(s, t), r, c) == if InTail(row, col, r, c) then t[c - col] else CellOf(s, r, c)
    ensures InTail(row, col, r, c) ==> Tail(s)[c - col] == CellOf(s, r, c)
  {
    hide AllOfLength, RowStart, CurCol, WithTail, Tail;
    CellIndex(s, row, col, r, c);
    WithTailAt(s, t, RowStart(r, s.cols) + c);
    WithTailKeeps(s, t);
  }

  lemma WithTailKeeps(s: ValidState, t: Line)
    requires s.cur < PageLen(s) && |t| == s.cols - CurCol(s)
    ensures WithTail(s, t) == s.(page := WithTail(s, t).page) && |WithTail(s, t).page| == |s.page|
  {
    hide AllOfLength, RowStart, CurCol;
  }

  /** DCH with parameter a >= 1: the cells from the cursor on move left by n, and n blanks end the row. */
  lemma DeletedCell(s: ValidState, a: nat, row: nat, col: nat, r: nat, c: nat)
    requires At(s, row, col) && row < s.rows && r < s.rows && c < s.cols && a > 0
    ensures var n, e := Min(a, s.cols - col), EditCells(s, 'P', a);
            && e.Done? && e.s == s.(page := e.s.page)
            && CellOf(e.s, r, c) ==
               if !InTail(row, col, r, c) then CellOf(s, r, c)
               else if c + n < s.cols then CellOf(s, r, c + n) else Blank(s)
  {
    hide AllOfLength, RowStart, CurCol, WithTail, Tail, CellOf;
    var n := Min(a, s.cols - col);
    CellIndex(s, row, col, r, c);
    var t := DeleteCells(Tail(s), n, Blank(s));
    EditedCell(s, t, row, col, r, c);
    if InTail(row, col, r, c) && c + n < s.cols {
      EditedCell(s, t, row, col, r, c + n);
    }
  }

  /**
    ICH with parameter a >= 1: n blanks at the cursor, and the bytes from there on n cells further on. Of the
    attributes only those before the last n columns move; the last n cells keep theirs.
    */
  lemma InsertedCell(s: ValidState, a: nat, row: nat, col: nat, r: nat, c: nat)
    requires At(s, row, col) && row < s.rows && r < s.rows && c < s.cols && a > 0
    ensures var n, e := Min(a, s.cols - col), EditCells(s, '@', a);
            && e.Done? && e.s == s.(page := e.s.page)
            && CellOf(e.s, r, c) ==
               if !InTail(row, col, r, c) then CellOf(s, r, c)
               else if c < col + n then Blank(s)
               else Cell(CellOf(s, r, c - n).ch, CellOf(s, r, if c + n < s.cols then c - n else c).attr)
  {
    hide AllOfLength, RowStart, CurCol, WithTail, Tail, CellOf;
    var n := Min(a, s.cols - col);
    CellIndex(s, row, col, r, c);
    var t := InsertCells(Tail(s), n, Blank(s));
    EditedCell(s, t, row, col, r, c);
    if InTail(row, col, r, c) && c >= col + n {
      EditedCell(s, t, row, col, r, c - n);
    }
  }

  /** ECH with parameter a >= 1 blanks the cells from the cursor on, as far as its row goes. */
  lemma ErasedCells(s: ValidState, a: nat, row: nat, col: nat, r: nat, c: nat)
    requires At(s, row, col) && row < s.rows && r < s.rows && c < s.cols && a > 0
    ensures var n, e := Min(a, s.cols - col), EditCells(s, 'X', a);
            && e.Done? && e.s == s.(page := e.s.page) && |e.s.page| == |s.page|
            && CellOf(e.s, r, c) ==
               if InTail(row, col, r, c) && c < col + n then Blank(s) else CellOf(s, r, c)
  {
    hide AllOfLength, RowStart, CurCol, EraseOrOutside;
    CellIndex(s, row, col, r, c);
    RowsApart(r, row, s.cols);
    RowsApart(row, s.rows, s.cols);
    ErasedCell(s, s.cur, Min(a, s.cols - col), RowStart(r, s.cols) + c);
  }

  /** CSI 2 J leaves a page of spaces in the current colours, and nothing else changes. */
  lemma ClearSequence(s: ValidState, r: nat, c: nat)
    requires r < s.rows && c < s.cols
    ensures var e := EraseDisplay(s, 2);
            && e.Done? && Runs(s, [Some(2)], 'J', e) && e.s == s.(page := e.s.page) && |e.s.page| == |s.page|
            && CellOf(e.s, r, c) == Cell(' ', s.attr)
  {
    hide AllOfLength, RowStart, EraseDisplay, Runs;
    EditSequences(s, [Some(2)]);
    RowsApart(r, s.rows, s.cols);
    AllErased(s);
  }

  lemma AllErased(s: ValidState)
    ensures EraseDisplay(s, 2) == Done(s.(page := Fill(|s.page|, Cell(' ', s.attr))))
  {
    hide AllOfLength, RowStart;
    assert Put(s.page, 0, Fill(PageLen(s), Blank(s))) == Fill(|s.page|, Blank(s));
  }

  /** Parameter 0 edits nothing, wherever the cursor stands. */
  lemma NothingEdited(s: ValidState, cmd: char)
    ensures EditCells(s, cmd, 0) == Done(s)
  {
  }

  // Control characters.

  /**
    CR, TAB and BS move the cursor in its row, as far as B() lets it; with a wrap pending CR goes to the row that
    was just filled. TAB goes to the next multiple of 8, in the last eight columns to the last one.
    */
  lemma ControlsMove(s: ValidState, row: nat, col: nat)
    requires At(s, row, col)
    ensures Leads(s, [CR], s.(wrapped := false,
                              cur := Bounded(s, RowStart(row, s.cols) - if s.wrapped then s.cols else 0)))
    ensures Leads(s, [TAB], s.(cur := Bounded(s, RowStart(row, s.cols) + if col + 8 >= s.cols then s.cols - 1
                                                                         else (col / 8 + 1) * 8)))
    ensures Leads(s, [BS], s.(cur := Bounded(s, RowStart(row, s.cols) + Max(col - 1, 0))))
  {
    hide Leads, RowStart, AllOfLength, CarriageReturn, Tab, Backspace, Bounded;
    PlainLeads(s, CR);
    PlainLeads(s, TAB);
    PlainLeads(s, BS);
    ReturnMoves(s, row, col);
    TabMoves(s, row, col);
    BackspaceMoves(s, row, col);
  }

  lemma ReturnMoves(s: ValidState, row: nat, col: nat)
    requires At(s, row, col)
    ensures CarriageReturn(s) ==
            s.(wrapped := false, cur := Bounded(s, RowStart(row, s.cols) - if s.wrapped then s.cols else 0))
  {
    hide RowStart, AllOfLength, Clamp, CurCol, ClampInt;
    AtColumn(s, row, col);
    ClampIsBounded(s.(wrapped := false), s.cur - col - if s.wrapped then s.cols else 0);
  }

  lemma TabMoves(s: ValidState, row: nat, col: nat)
    requires At(s, row, col)
    ensures Tab(s) == s.(cur := Bounded(s, RowStart(row, s.cols) + if col + 8 >= s.cols then s.cols - 1
                                                                   else (col / 8 + 1) * 8))
  {
    hide RowStart, AllOfLength, Clamp, CurCol, Bounded;
    AtColumn(s, row, col);
    NextStop(col);
    ClampIsBounded(s, s.cur + if col >= s.cols - 8 then s.cols - 1 - col else 8 - col % 8);
  }

  lemma NextStop(col: nat)
    ensures col + (8 - col % 8) == (col / 8 + 1) * 8
  {
  }

  lemma BackspaceMoves(s: ValidState, row: nat, col: nat)
    requires At(s, row, col)
    ensures Backspace(s) == s.(cur := Bounded(s, RowStart(row, s.cols) + Max(col - 1, 0)))
  {
    hide RowStart, AllOfLength, Clamp, CurCol, Bounded;
    AtColumn(s, row, col);
    ClampIsBounded(s, if col > 0 then s.cur - 1 else s.cur);
  }

  lemma PlainLeads(s: ValidState, c: char)
    requires c != ESC && c != NUL
    ensures Leads(s, [c], PlainStep(s, c))
  {
    hide Leads, PlainStep;
    OneToken(s, [c], Plain(c));
  }

  /** SO and SI switch line drawing on and off, BEL does nothing, LF is `NextLine`. */
  lemma ControlsSwitch(s: ValidState)
    ensures Leads(s, [SO], s.(dographic := true)) && Leads(s, [SI], s.(dographic := false)) && Leads(s, [BEL], s)
    ensures Leads(s, [LF], NextLine(s))
  {
    hide Leads, RowStart, AllOfLength, NextLine;
    PlainLeads(s, SO);
    PlainLeads(s, SI);
    PlainLeads(s, BEL);
    PlainLeads(s, LF);
  }

  // Stored characters.

  /** The line drawing characters, in code page 437; any other small letter or sign is drawn as a question mark. */
  function Drawn(c: char): char {
    match c
    case 'a' => '\U{b1}'
    case 'f' => '\U{f8}'
    case 'g' => '\U{f1}'
    case 'j' => '\U{d9}'
    case 'k' => '\U{bf}'
    case 'l' => '\U{da}'
    case 'm' => '\U{c0}'
    case 'n' => '\U{c5}'
    case 'q' => '\U{c4}'
    case 't' => '\U{c3}'
    case 'u' => '\U{b4}'
    case 'v' => '\U{c1}'
    case 'w' => '\U{c2}'
    case 'x' => '\U{b3}'
    case 'y' => '\U{f3}'
    case 'z' => '\U{f2}'
    case '{' => '\U{e3}'
    case '}' => '\U{9c}'
    case '~' => '\U{fa}'
    case _ => '?'
  }

  lemma TableIsDrawn(c: char)
    requires '\U{60}' <= c < '\U{7f}'
    ensures |SPECIAL_TABLE| == 32 && SPECIAL_TABLE[c as int - 0x60] == Drawn(c)
  {
  }

  /**
    A character in a page with room goes to the cursor's cell, in the current colours, and the cursor goes on by
    one; a wrap is pending after the last column. Where line drawing is on, a small letter draws and the cell
    keeps its colours, and a wrap that was pending stays so.
    */
  lemma CharacterStored(s: ValidState, c: char, row: nat, col: nat, r: nat, k: nat)
    requires At(s, row, col) && row < s.bottom && r < s.rows && k < s.cols
    requires IsStored(c)
    ensures var draws, t := s.graphics && s.dographic && '\U{60}' <= c < '\U{7f}', PlainStep(s, c);
            && Leads(s, [c], t)
            && t == s.(page := t.page, cur := s.cur + 1, wrapped := col == s.cols - 1 || (draws && s.wrapped))
            && CellOf(t, r, k) ==
               if r != row || k != col then CellOf(s, r, k)
               else if draws then Cell(Drawn(c), CellOf(s, row, col).attr) else Cell(c, s.attr)
  {
    hide RowStart, AllOfLength, PlainStep, Drawn, Leads;
    PlainLeads(s, c);
    StoredInRoom(s, c, row, col);
    CellIndex(s, row, col, r, k);
    RowsApart(r, row, s.cols);
  }

  function StoredAs(s: State, c: char, attr: bv8): Cell {
    if s.graphics && s.dographic && '\U{60}' <= c < '\U{7f}' then Cell(Drawn(c), attr) else Cell(c, s.attr)
  }

  lemma StoredInRoom(s: ValidState, c: char, row: nat, col: nat)
    requires At(s, row, col) && row < s.bottom && IsStored(c)
    ensures s.cur < |s.page|
    ensures PlainStep(s, c) ==
            s.(page := s.page[s.cur := StoredAs(s, c, s.page[s.cur].attr)], cur := s.cur + 1,
               wrapped := col == s.cols - 1 || (s.graphics && s.dographic && '\U{60}' <= c < '\U{7f}' && s.wrapped))
  {
    hide RowStart, AllOfLength, CurCol, AutoScroll, Drawn;
    AtColumn(s, row, col);
    RowsApart(row, s.bottom, s.cols);
    RowsApart(row, s.rows, s.cols);
    AutoScrollStops(s);
    assert PlainStep(s, c) == Store(s, c, col);
    if '\U{60}' <= c < '\U{7f}' {
      TableIsDrawn(c);
    }
  }

  /** A new session: a blank page, the cursor in its first cell, the whole page as region, everything else off. */
  lemma NewSession(rows: nat, cols: nat, r: nat, c: nat)
    requires r < rows && c < cols
    ensures var s := Initial(rows, cols);
            && CellOf(s, r, c) == EMPTY && At(s, 0, 0) && s.top == 0 && s.bottom == rows
            && s == State(rows, cols, s.page, 0, 0, rows, false, false, false, false, false, false, 0, [])
  {
    FirstRow(cols);
    RowsApart(r, rows, cols);
  }
}
