/** The stale cell at an input, on a screen of two rows and two columns. */
module StaleCell {
  import opened Blocks
  import opened Cells
  import opened Pixmaps
  import opened Fonts
  import opened AnsiParser
  import opened ModernTerminal
  import opened Rendering
  import opened RefreshPolicy
  import opened FramePipeline

  /** What is sent before the frame. */
  const TYPED: seq<Item> := [Cup(2, 1), Text("a"), Cup(1, 2), Text("b")]

  /** What the parser makes of it. */
  lemma TypedActions()
    ensures MeaningAll(TYPED) == [CursorMove(2, 1), Print('a'), CursorMove(1, 2), Print('b')]
  {
    assert TYPED[1..] == [Text("a"), Cup(1, 2), Text("b")] && TYPED[1..][1..] == [Cup(1, 2), Text("b")];
    assert TYPED[1..][1..][1..] == [Text("b")] && [Text("b")][1..] == [];
    assert Prints("a") == [Print('a')] && Prints("b") == [Print('b')];
  }

  /** A screen of two rows and two columns, all rows marked. */
  function Small(row: nat, col: nat, cells: seq<Cell>): (s: ValidScreen)
    requires row < 2 && col <= 2 && |cells| == 4
    ensures s == Screen(2, 2, row, col, cells, [true, true])
  {
    assert RowStart(1, 2) == 2;
    Screen(2, 2, row, col, cells, [true, true])
  }

  lemma Moved(row: nat, col: nat, cells: seq<Cell>, r: nat, c: nat)
    requires row < 2 && col <= 2 && |cells| == 4 && 1 <= r <= 2 && 1 <= c <= 2
    ensures Apply(Small(row, col, cells), CursorMove(r, c)) == Small(r - 1, c - 1, cells)
  {
    hide RowStart;
  }

  lemma Printed(row: nat, col: nat, cells: seq<Cell>, c: char)
    requires row < 2 && col < 2 && |cells| == 4 && c as int >= 32
    ensures Apply(Small(row, col, cells), Print(c)) == Small(row, col + 1, cells[2 * row + col := Cell(c, 0)])
  {
    assert RowStart(0, 2) == 0 && RowStart(1, 2) == 2;
  }

  lemma {:induction false} WithoutErase(s: ValidScreen, actions: seq<Action>)
    requires forall i :: 0 <= i < |actions| ==> actions[i] != EraseDisplay(1)
    ensures MissedRows(s, actions) == {}
    decreases |actions|
  {
    hide Apply;
    if actions != [] {
      WithoutErase(Apply(s, actions[0]), actions[1..]);
    }
  }

  lemma FourActions(s: ValidScreen, a: Action, b: Action, c: Action, d: Action)
    ensures ApplyAll(s, [a, b, c, d]) == Apply(Apply(Apply(Apply(s, a), b), c), d)
  {
    hide Apply;
    assert [a, b, c, d] == [a] + ([b] + ([c] + [d]));
    OneAction(s, a);
    OneAction(Apply(s, a), b);
    OneAction(Apply(Apply(s, a), b), c);
    OneAction(Apply(Apply(Apply(s, a), b), c), d);
    ApplyAllConcat(s, [a], [b] + ([c] + [d]));
    ApplyAllConcat(Apply(s, a), [b], [c] + [d]);
    ApplyAllConcat(Apply(Apply(s, a), b), [c], [d]);
  }

  /** The screen after it, with its marks taken by the frame. */
  lemma ScreenTyped()
    ensures MissedRows(ModernTerminal.Initial(2, 2), MeaningAll(TYPED)) == {}
    ensures var s := Taken(ApplyAll(ModernTerminal.Initial(2, 2), MeaningAll(TYPED)));
            s.row == 0 && s.rows == 2 && MissesMark(s, EraseDisplay(1)) && RowCells(s, 1)[0] == Cell('a', 0)
  {
    hide MeaningAll, Apply, ApplyAll, MissedRows;
    TypedActions();
    var blank := [EMPTY, EMPTY, EMPTY, EMPTY];
    var s0 := ModernTerminal.Initial(2, 2);
    assert RowStart(1, 2) == 2 && RowStart(2, 2) == 4;
    assert s0 == Small(0, 0, blank);
    WithoutErase(s0, MeaningAll(TYPED));
    FourActions(s0, CursorMove(2, 1), Print('a'), CursorMove(1, 2), Print('b'));
    Moved(0, 0, blank, 2, 1);
    Printed(1, 0, blank, 'a');
    Moved(1, 1, blank[2 := Cell('a', 0)], 1, 2);
    Printed(0, 1, blank[2 := Cell('a', 0)], 'b');
  }

  /** Whether two glyphs look different depends on the size of the canvas only. */
  lemma SameSizeTellsApart(canvas: Raster, other: Raster, f: ValidFont, c1: char, c2: char, x: int, y: int)
    requires TellsApart(canvas, f, c1, c2, x, y)
    requires canvas.width == other.width && canvas.height == other.height
    ensures TellsApart(other, f, c1, c2, x, y)
  {
    hide Ink, RowStart;
    var px, py :| SameInk(canvas, f, c1, c2, x, y, px, py, true);
    var qx, qy :| SameInk(canvas, f, c1, c2, x, y, qx, qy, false);
    assert SameInk(other, f, c1, c2, x, y, px, py, true) && SameInk(other, f, c1, c2, x, y, qx, qy, false);
  }

  function Typed(font: ValidFont, blank: Surface, panel: Picture, config: RefreshConfig): ValidApp
    requires blank.width % 2 == 0
  {
    var a0 := Start(2, 2, font, blank, panel, config);
    StartIsGood(2, 2, font, blank, panel, config);
    FeedKeepsValid(a0, EncodeAll(TYPED));
    FrameKeepsValid(FeedOutput(a0, EncodeAll(TYPED)));
    FramePipeline.Step(FramePipeline.Step(a0, Output(EncodeAll(TYPED))), DrawFrame)
  }

  /** The run up to the ED 1: all is well, and the next row is about to be changed without its mark. */
  lemma TypedIsGood(font: ValidFont, blank: Surface, panel: Picture, config: RefreshConfig)
    requires blank.width % 2 == 0
    ensures var a := Typed(font, blank, panel, config);
            && Good(a, {}) && !a.help && a.font == font && a.parser.mode == Ground
            && a.canvas.width == blank.width && a.canvas.height == blank.height
            && a.screen == Taken(ApplyAll(ModernTerminal.Initial(2, 2), MeaningAll(TYPED)))
  {
    hide Good, EncodeAll, MeaningAll, MissedRows, ApplyAll, Feed, Render, DirtyRect, WellFormed;
    var a0 := Start(2, 2, font, blank, panel, config);
    var input := EncodeAll(TYPED);
    StartIsGood(2, 2, font, blank, panel, config);
    FeedItems("", TYPED);
    ScreenTyped();
    TypedStep(a0, input);
  }

  lemma TypedStep(a: App, input: string)
    requires Good(a, {}) && !a.help && MissedRows(a.screen, Feed(a.parser, input).1) == {}
    ensures var a2 := Frame(FeedOutput(a, input));
            && WellFormed(FeedOutput(a, input))
            && Good(a2, {}) && !a2.help && a2.font == a.font && a2.parser == Feed(a.parser, input).0
            && a2.canvas.width == a.canvas.width && a2.canvas.height == a.canvas.height
            && a2.screen == Taken(ApplyAll(a.screen, Feed(a.parser, input).1))
  {
    hide Coherent, PanelShows, MissedRows, ApplyAll, Feed, Render, DirtyRect;
    FeedKeepsGood(a, {}, input);
    assert StaleAfter(a, {}, Output(input)) == {} && NotDrawn(FeedOutput(a, input).screen, {}) == {};
    FrameKeepsGood(FeedOutput(a, input), {});
  }

  /** After the ED 1 the canvas still shows the `a` that is gone from the grid. */
  lemma StaleAfterErase(font: ValidFont, blank: Surface, panel: Picture, config: RefreshConfig)
    requires blank.width % 2 == 0
    requires TellsApart(blank, font, 'a', ' ', 0, RowStart(1, font.height))
    ensures var a := FramePipeline.Step(Typed(font, blank, panel, config), Output(Encode(Ed(1))));
            && ModernTerminal.Valid(a.screen) && a.canvas.Valid() && a.font == font
            && !Coherent(a.canvas, font, a.screen, {})
  {
    hide Typed, Encode, MeaningAll, ApplyAll, Feed, Coherent, TellsApart, RowStart, Apply;
    var a := Typed(font, blank, panel, config);
    TypedIsGood(font, blank, panel, config);
    ScreenTyped();
    FeedItem(a.parser.params, Ed(1));
    OneAction(a.screen, EraseDisplay(1));
    SameSizeTellsApart(blank, a.canvas, font, 'a', ' ', 0, RowStart(1, font.height));
    MissedMarkIsStale(a.canvas, font, a.screen, {});
  }

  lemma OneAction(s: ValidScreen, a: Action)
    ensures ApplyAll(s, [a]) == Apply(s, a)
  {
    assert [a][1..] == [];
  }

  /** A font of two glyphs of one row: a dot for `a`, nothing for the blank. */
  function TwoGlyphs(): (f: ValidFont)
  {
    Font(8, 1, [0x80, 0x00], Fill(CODEPOINTS, 0)['a' as nat := 1][' ' as nat := 2])
  }

  /** Such a font tells the two apart on any canvas of two pixels by two. */
  lemma TwoGlyphsTellApart(canvas: Raster)
    requires canvas.width >= 2 && canvas.height >= 2
    ensures TellsApart(canvas, TwoGlyphs(), 'a', ' ', 0, RowStart(1, TwoGlyphs().height))
  {
    var f := TwoGlyphs();
    assert RowStart(1, 1) == 1;
    assert f.Glyph('a' as nat).value == [0x80] && f.Glyph(' ' as nat).value == [0x00];
    assert SameInk(canvas, f, 'a', ' ', 0, 1, 0, 1, false);
    assert SameInk(canvas, f, 'a', ' ', 0, 1, 1, 1, true);
  }
}
