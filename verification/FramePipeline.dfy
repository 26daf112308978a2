/** The frames of the application (app/application.hpp): screen, canvas, driver surface and panel. */
module FramePipeline {
  import opened Blocks
  import opened Cells
  import opened Geometry
  import opened Pixmaps
  import opened Fonts
  import opened AnsiParser
  import opened ModernTerminal
  import opened Rendering
  import opened RefreshPolicy

  // Why redrawing only the dirty rows and refreshing only their strip shows what drawing everything would.

  datatype App = App(
    screen: Screen, parser: Parser, font: Font,
    canvas: Raster, surface: Raster, panel: Picture,
    display: Display,
    help: bool)                // the help screen is shown

  ghost predicate WellFormed(a: App) {
    && ModernTerminal.Valid(a.screen) && a.font.Valid()
    && a.canvas.Valid() && a.surface.Valid()
    && a.canvas.width % 2 == 0
    && a.surface.width == a.canvas.width && a.surface.height == a.canvas.height
    && a.display.bounds == Rect(0, 0, a.canvas.width, a.canvas.height)
    && Idle(a.display)
  }

  type ValidApp = a: App | WellFormed(a)
    ghost witness SmallestApp()

  /** An application of one cell on a canvas without pixels. */
  ghost function SmallestApp(): App {
    var empty := Raster(0, 0, []);
    App(ModernTerminal.Initial(1, 1), Parser(Ground, ""), NewFont(0, 0), empty, empty, (x, y) => 0,
        RefreshPolicy.Initial(0, 0, RefreshConfig(0, _ => false, false)), false)
  }

  // compute_dirty_rect

  /** The first dirty row, |dirty| when there is none. */
  function FirstDirty(dirty: seq<bool>): (r: nat)
    ensures r <= |dirty| && (r < |dirty| ==> dirty[r])
    ensures forall i :: 0 <= i < r ==> !dirty[i]
  {
    if dirty == [] || dirty[0] then 0 else FirstDirty(dirty[1..]) + 1
  }

  /** One past the last dirty row, 0 when there is none. */
  function AfterDirty(dirty: seq<bool>): (r: nat)
    ensures r <= |dirty| && (r > 0 ==> dirty[r - 1])
    ensures forall i :: r <= i < |dirty| ==> !dirty[i]
  {
    if dirty == [] then 0
    else if dirty[|dirty| - 1] then |dirty|
    else AfterDirty(dirty[..|dirty| - 1])
  }

  /** The strip from the first to the last dirty row. */
  function DirtyRect(dirty: seq<bool>, glyphHeight: nat, width: nat): Rect {
    var first, after := FirstDirty(dirty), AfterDirty(dirty);
    if first >= after then Rect(0, 0, 0, 0)
    else Rect(0, RowStart(first, glyphHeight), width, RowStart(after - first, glyphHeight))
  }

  /** The strip holds every pixel of the canvas in a dirty row. */
  lemma DirtyRowInRect(f: Font, s: ValidScreen, dirty: seq<bool>, canvas: Raster, px: int, py: int)
    requires |dirty| == s.rows
    requires InDirtyRow(f, s, dirty, s.rows, px, py) && canvas.On(px, py)
    ensures DirtyRect(dirty, f.height, canvas.width).Contains(px, py)
  {
    hide FirstDirty, AfterDirty, RowStart;
    var row: nat :| row < s.rows && dirty[row] && Band(f, row, s.cols).Contains(px, py);
    var first, after := FirstDirty(dirty), AfterDirty(dirty);
    assert first <= row < after;
    RowStartAdd(first, after - first, f.height);
    RowsApart(first, row, f.height);
    RowsApart(row, after, f.height);
  }

  // The steps.

  /** Copying the canvas to the driver, marking a rectangle and flushing. */
  function Show(a: App, canvas: Surface, rect: Rect): App
    requires a.canvas.Valid()
  {
    var display := MarkDirty(a.display, rect);
    a.(canvas := canvas, surface := canvas, display := Flush(display), panel := Flushed(a.panel, canvas, display))
  }

  /** The session after its dirty rows are taken. */
  function Taken(s: ValidScreen): ValidScreen {
    s.(dirty := Fill(s.rows, false))
  }

  /** render_frame */
  function Frame(a: ValidApp): App
  {
    var dirty := a.screen.dirty;
    var rect := DirtyRect(dirty, a.font.height, a.canvas.width);
    var taken := a.(screen := Taken(a.screen));
    if rect.IsEmpty() then taken
    else Show(taken, Render(a.canvas, a.font, taken.screen, dirty), rect)
  }

  /** feed_terminal_output */
  function FeedOutput(a: ValidApp, input: string): App
  {
    a.(screen := ApplyAll(a.screen, Feed(a.parser, input).1), parser := Feed(a.parser, input).0)
  }

  /** render_help, with whatever the help renderer draws and the rectangle it returns. */
  function ShowHelp(a: ValidApp, picture: Surface, rect: Rect): App
  {
    Show(a, picture, rect).(help := true)
  }

  /** mark_all_dirty */
  function AllDirty(s: ValidScreen): ValidScreen {
    s.(dirty := Fill(s.rows, true))
  }

  /** restore_terminal_display, when help is left. */
  function LeaveHelp(a: ValidApp): App
  {
    var screen := AllDirty(a.screen);
    var canvas := Render(Cleared(a.canvas, 0xFF), a.font, screen, screen.dirty);
    a.(screen := screen, canvas := canvas, surface := canvas, display := RefreshFull(a.display),
       panel := Refreshed(a.panel, canvas, Full), help := false)
  }

  /** The application before its first frame: a white canvas, copied and refreshed. */
  function Start(rows: nat, cols: nat, font: Font, blank: Surface, panel: Picture, config: RefreshConfig): App
    requires 1 <= rows && 1 <= cols
  {
    var white := Cleared(blank, 0xFF);
    App(ModernTerminal.Initial(rows, cols), Parser(Ground, ""), font, white, white, Refreshed(panel, white, Full),
        RefreshFull(RefreshPolicy.Initial(blank.width, blank.height, config)), false)
  }

  datatype Event =
    | Output(input: string)                    // bytes from the shell
    | DrawFrame
    | Help(picture: Raster, rect: Rect)
    | Leave

  predicate Drawable(a: App, e: Event) {
    e.Help? ==> e.picture.Valid() && e.picture.width == a.canvas.width && e.picture.height == a.canvas.height
  }

  function Step(a: ValidApp, e: Event): (a': App)
    requires Drawable(a, e)
  {
    match e
    case Output(input) => FeedOutput(a, input)
    case DrawFrame => Frame(a)
    case Help(picture, rect) => ShowHelp(a, picture, rect)
    case Leave => LeaveHelp(a)
  }

  // What every run keeps.

  /** The panel shows the canvas. */
  ghost predicate PanelShows(panel: Picture, canvas: Surface)
  {
    forall x, y :: canvas.On(x, y) ==> panel(x, y) == Get(canvas, x, y)
  }

  /** The row shows the glyphs of its cells, at most one of them inverted. */
  ghost predicate RowCoherent(canvas: Surface, f: ValidFont, line: seq<Cell>, row: nat)
  {
    exists k: nat :: RowShown(canvas, f, line, row, k)
  }

  /** Every row that is not dirty shows its cells, the stale rows aside. */
  ghost predicate Coherent(canvas: Surface, f: ValidFont, s: ValidScreen, stale: set<nat>)
  {
    forall row: nat :: row < s.rows && !s.dirty[row] && row !in stale ==> RowCoherent(canvas, f, RowCells(s, row), row)
  }

  ghost predicate Good(a: App, stale: set<nat>) {
    && WellFormed(a)
    && a.surface == a.canvas
    && (!a.help ==> PanelShows(a.panel, a.canvas) && Coherent(a.canvas, a.font, a.screen, stale))
  }

  /** The stale rows after a frame: those drawn are not stale any more. */
  ghost function NotDrawn(s: ValidScreen, stale: set<nat>): set<nat> {
    set row | row in stale && !(row < s.rows && s.dirty[row])
  }

  /** The stale rows after an event: an ED 1 that changes a row without marking it makes the row stale. */
  ghost function StaleAfter(a: ValidApp, stale: set<nat>, e: Event): set<nat> {
    match e
    case Output(input) => if a.help then stale else stale + MissedRows(a.screen, Feed(a.parser, input).1)
    case DrawFrame => NotDrawn(a.screen, stale)
    case Help(_, _) => stale
    case Leave => {}
  }

  lemma ShowKeepsValid(a: ValidApp, canvas: Surface, rect: Rect)
    requires canvas.width == a.canvas.width && canvas.height == a.canvas.height
    ensures WellFormed(Show(a, canvas, rect)) && Show(a, canvas, rect).display.bounds == a.display.bounds
  {
    hide MarkDirty, Flush, Flushed;
    MarkWhenIdle(a.display, rect);
  }

  /** After Show the pixels of the rectangle are those of the new canvas; any other is, or is as before. */
  lemma ShowPixel(a: ValidApp, canvas: Surface, rect: Rect, x: int, y: int)
    requires canvas.width == a.canvas.width && canvas.height == a.canvas.height
    requires canvas.On(x, y)
    ensures var p := Show(a, canvas, rect).panel(x, y);
            && (p == Get(canvas, x, y) || p == a.panel(x, y))
            && (rect.Contains(x, y) ==> p == Get(canvas, x, y))
  {
    hide Flush, Flushed, Get;
    var d := MarkDirty(a.display, rect);
    MarkWhenIdle(a.display, rect);
    FlushedPixel(a.panel, canvas, d, x, y);
    assert rect in d.marks && d.bounds.Contains(x, y);
  }

  /** Redrawing the dirty rows and taking their marks leaves every row coherent but those stale and not drawn. */
  lemma RenderCoherent(canvas: Surface, f: ValidFont, s: ValidScreen, stale: set<nat>)
    requires Coherent(canvas, f, s, stale)
    ensures Coherent(Render(canvas, f, Taken(s), s.dirty), f, Taken(s), NotDrawn(s, stale))
  {
    hide Get, RowStart, RenderRows, CellsShown, CellShown, SameIn, InDirtyRow;
    var s', canvas' := Taken(s), Render(canvas, f, Taken(s), s.dirty);
    RenderedRows(canvas, f, s', s.dirty, s.rows);
    forall row: nat | row < s.rows && row !in NotDrawn(s, stale)
      ensures RowCoherent(canvas', f, RowCells(s', row), row)
    {
      if s.dirty[row] {
        assert RowShown(canvas', f, RowCells(s', row), row, InvertedAt(s', row));
      } else {
        assert RowCoherent(canvas, f, RowCells(s, row), row);
        var k: nat :| RowShown(canvas, f, RowCells(s, row), row, k);
        assert RowCells(s', row) == RowCells(s, row);
        RowStaysShown(canvas, canvas', f, RowCells(s', row), row, s.cols, k);
        assert RowShown(canvas', f, RowCells(s', row), row, k);
      }
    }
  }

  /** When there is nothing to refresh, taking the marks changes nothing either. */
  lemma NothingDirty(canvas: Surface, f: ValidFont, s: ValidScreen, stale: set<nat>)
    requires Coherent(canvas, f, s, stale)
    requires DirtyRect(s.dirty, f.height, canvas.width).IsEmpty()
    ensures Coherent(canvas, f, Taken(s), NotDrawn(s, stale))
  {
    hide Get, RowStart, CellShown;
    var s' := Taken(s);
    forall row: nat | row < s.rows && row !in NotDrawn(s, stale)
      ensures RowCoherent(canvas, f, RowCells(s', row), row)
    {
      if s.dirty[row] {
        EmptyStrip(f, s.dirty, canvas.width);
        forall c: nat | c < s.cols
          ensures CellShown(canvas, f, RowCells(s', row)[c].ch, RowStart(c, f.width), RowStart(row, f.height), false)
        {
          NothingToShow(canvas, f, RowCells(s', row)[c].ch, RowStart(c, f.width), RowStart(row, f.height));
        }
        assert RowShown(canvas, f, RowCells(s', row), row, s.cols);
      } else {
        assert RowCoherent(canvas, f, RowCells(s, row), row);
      }
    }
  }

  lemma EmptyStrip(f: Font, dirty: seq<bool>, width: nat)
    requires DirtyRect(dirty, f.height, width).IsEmpty() && exists i :: 0 <= i < |dirty| && dirty[i]
    ensures width == 0 || f.height == 0
  {
    hide RowStart;
    var first, after := FirstDirty(dirty), AfterDirty(dirty);
    RowsApart(0, after - first, f.height);
  }

  lemma NothingToShow(canvas: Raster, f: Font, ch: char, x: int, y: int)
    requires canvas.Valid() && f.Valid() && (canvas.width == 0 || f.height == 0)
    ensures CellShown(canvas, f, ch, x, y, false)
  {
    hide Get, Ink;
  }

  /** Every pixel a frame changes lies in the strip it refreshes, so the panel keeps up with the canvas. */
  lemma FrameKeepsPanel(a: ValidApp)
    requires PanelShows(a.panel, a.canvas)
    ensures PanelShows(Frame(a).panel, Frame(a).canvas)
  {
    hide Get, RowStart, RenderRows, Rendering.RowShown, SameIn, InDirtyRow, DirtyRect, Flushed, MarkDirty, Flush;
    var dirty, taken := a.screen.dirty, a.(screen := Taken(a.screen));
    var rect := DirtyRect(dirty, a.font.height, a.canvas.width);
    if !rect.IsEmpty() {
      var canvas := Render(a.canvas, a.font, taken.screen, dirty);
      RenderedRows(a.canvas, a.font, taken.screen, dirty, a.screen.rows);
      forall x, y | canvas.On(x, y) ensures Frame(a).panel(x, y) == Get(canvas, x, y) {
        ShowPixel(taken, canvas, rect, x, y);
        if InDirtyRow(a.font, taken.screen, dirty, a.screen.rows, x, y) {
          DirtyRowInRect(a.font, taken.screen, dirty, canvas, x, y);
        }
      }
    }
  }

  lemma FrameKeepsValid(a: ValidApp)
    ensures WellFormed(Frame(a)) && Frame(a).help == a.help
    ensures a.surface == a.canvas ==> Frame(a).surface == Frame(a).canvas
  {
    hide Inv, DirtyRect, Render;
    var taken := a.(screen := Taken(a.screen));
    var rect := DirtyRect(a.screen.dirty, a.font.height, a.canvas.width);
    if !rect.IsEmpty() {
      ShowKeepsValid(taken, Render(a.canvas, a.font, taken.screen, a.screen.dirty), rect);
    }
  }

  lemma FrameKeepsGood(a: App, stale: set<nat>)
    requires Good(a, stale)
    ensures Good(Frame(a), NotDrawn(a.screen, stale)) && Frame(a).help == a.help
  {
    hide PanelShows, Coherent, DirtyRect, Render, WellFormed;
    FrameKeepsValid(a);
    if !a.help {
      FrameKeepsPanel(a);
      FrameKeepsCoherent(a, stale);
    }
  }

  lemma FrameKeepsCoherent(a: ValidApp, stale: set<nat>)
    requires Coherent(a.canvas, a.font, a.screen, stale) && WellFormed(Frame(a))
    ensures Coherent(Frame(a).canvas, Frame(a).font, Frame(a).screen, NotDrawn(a.screen, stale))
  {
    hide Coherent, NotDrawn, DirtyRect, Render;
    if DirtyRect(a.screen.dirty, a.font.height, a.canvas.width).IsEmpty() {
      NothingDirty(a.canvas, a.font, a.screen, stale);
    } else {
      RenderCoherent(a.canvas, a.font, a.screen, stale);
    }
  }

  lemma ChangesKeepCoherent(canvas: Surface, f: ValidFont, s: ValidScreen, t: ValidScreen,
                            missed: set<nat>, stale: set<nat>)
    requires s.rows == t.rows && s.cols == t.cols && ChangesMarkedBut(s, t, missed) && Coherent(canvas, f, s, stale)
    ensures Coherent(canvas, f, t, stale + missed)
  {
    hide RowCoherent, RowCells;
  }

  lemma FeedKeepsGood(a: App, stale: set<nat>, input: string)
    requires Good(a, stale)
    ensures Good(FeedOutput(a, input), StaleAfter(a, stale, Output(input))) && FeedOutput(a, input).help == a.help
  {
    hide Coherent, PanelShows, MissedRows, ApplyAll, Feed;
    if !a.help {
      var actions := Feed(a.parser, input).1;
      ActionsAreMarked(a.screen, actions);
      ChangesKeepCoherent(a.canvas, a.font, a.screen, FeedOutput(a, input).screen,
                          MissedRows(a.screen, actions), stale);
    }
  }

  /** Leaving help redraws everything, whatever the help screen left on the canvas. */
  lemma LeaveKeepsGood(a: App, stale: set<nat>)
    requires Good(a, stale)
    ensures Good(LeaveHelp(a), {}) && !LeaveHelp(a).help
    ensures var a' := LeaveHelp(a); forall row: nat :: row < a'.screen.rows ==>
              RowShown(a'.canvas, a'.font, RowCells(a'.screen, row), row, InvertedAt(a'.screen, row))
  {
    hide Get, RenderRows, RefreshPolicy.RefreshFull, CellsShown, SameIn, InDirtyRow, RowCells;
    var screen := AllDirty(a.screen);
    RenderedRows(Cleared(a.canvas, 0xFF), a.font, screen, screen.dirty, screen.rows);
  }

  lemma StartIsGood(rows: nat, cols: nat, font: ValidFont, blank: Surface, panel: Picture, config: RefreshConfig)
    requires 1 <= rows && 1 <= cols && blank.width % 2 == 0
    ensures var a := Start(rows, cols, font, blank, panel, config); Good(a, {}) && !a.help
  {
    hide Get, RefreshPolicy.RefreshFull, RowCoherent;
  }

  lemma StepKeepsGood(a: App, stale: set<nat>, e: Event)
    requires Good(a, stale) && Drawable(a, e)
    ensures Good(Step(a, e), StaleAfter(a, stale, e))
  {
    hide Coherent, PanelShows, FeedOutput, Frame, LeaveHelp, MissedRows, NotDrawn;
    match e
    case Output(input) => FeedKeepsGood(a, stale, input);
    case DrawFrame => FrameKeepsGood(a, stale);
    case Help(picture, rect) => ShowKeepsValid(a, picture, rect);
    case Leave => LeaveKeepsGood(a, stale);
  }

  /** The invariant holds now and after each of the events, with the rows that are stale by then. */
  ghost predicate AlwaysGood(a: App, stale: set<nat>, events: seq<Event>)
    decreases |events|
  {
    && Good(a, stale)
    && (events != [] && Drawable(a, events[0]) ==>
          AlwaysGood(Step(a, events[0]), StaleAfter(a, stale, events[0]), events[1..]))
  }

  /**
    Over any run of output, frames and help, whenever help is not shown: the panel shows the canvas, pixel by
    pixel, and every row that is neither dirty nor stale shows the glyph of each of its cells, at most one of
    them inverted. A row is stale from an ED 1 that changes it without marking it until it is drawn.
    */
  lemma {:induction false} RunStaysGood(a: App, stale: set<nat>, events: seq<Event>)
    requires Good(a, stale)
    ensures AlwaysGood(a, stale, events)
    decreases |events|
  {
    hide Coherent, PanelShows, Step, StaleAfter;
    if events != [] && Drawable(a, events[0]) {
      StepKeepsGood(a, stale, events[0]);
      RunStaysGood(Step(a, events[0]), StaleAfter(a, stale, events[0]), events[1..]);
    }
  }

  /** Each event is a few calls of the refresh manager. */
  lemma StepCalls(a: ValidApp, e: Event) returns (calls: seq<Call>)
    requires Drawable(a, e)
    ensures Step(a, e).display == RefreshPolicy.Run(a.display, calls)
  {
    hide MarkDirty, Flush, RefreshPolicy.RefreshFull, Render, Flushed, DirtyRect;
    var d := a.display;
    match e
    case Output(_) => calls := [];
    case DrawFrame =>
      var rect := DirtyRect(a.screen.dirty, a.font.height, a.canvas.width);
      if rect.IsEmpty() {
        calls := [];
      } else {
        calls := [MarkCall(rect), FlushCall];
        RunTwo(d, calls[0], calls[1]);
      }
    case Help(_, rect) =>
      calls := [MarkCall(rect), FlushCall];
      RunTwo(d, calls[0], calls[1]);
    case Leave =>
      calls := [RefreshFullCall];
      assert calls[1..] == [];
  }

  lemma RunTwo(d: Display, c1: Call, c2: Call)
    ensures RefreshPolicy.Run(d, [c1, c2]) == RefreshPolicy.Step(RefreshPolicy.Step(d, c1), c2)
  {
    hide RefreshPolicy.Step;
    var d1 := RefreshPolicy.Step(d, c1);
    assert [c1, c2][1..] == [c2] && [c2][1..] == [];
    assert RefreshPolicy.Run(d1, [c2]) == RefreshPolicy.Step(d1, c2);
  }

  lemma StepKeepsValid(a: ValidApp, e: Event)
    requires Drawable(a, e)
    ensures WellFormed(Step(a, e))
  {
    hide FeedOutput, Frame, Render, RefreshPolicy.RefreshFull;
    match e
    case Output(input) => assert WellFormed(FeedOutput(a, input)) by { FeedKeepsValid(a, input); }
    case DrawFrame => FrameKeepsValid(a);
    case Help(picture, rect) => ShowKeepsValid(a, picture, rect);
    case Leave =>
  }

  lemma FeedKeepsValid(a: ValidApp, input: string)
    ensures WellFormed(FeedOutput(a, input))
  {
    hide ApplyAll, Feed;
  }

  /** The refresh policy holds now and after each of the events. */
  ghost predicate AlwaysPolicy(a: App, events: seq<Event>)
    decreases |events|
  {
    && WellFormed(a) && Inv(a.display)
    && (events != [] && Drawable(a, events[0]) ==> AlwaysPolicy(Step(a, events[0]), events[1..]))
  }

  lemma {:induction false} RunKeepsPolicy(a: ValidApp, events: seq<Event>)
    requires Inv(a.display)
    ensures AlwaysPolicy(a, events)
    decreases |events|
  {
    hide WellFormed, Inv, Step;
    if events != [] && Drawable(a, events[0]) {
      var calls := StepCalls(a, events[0]);
      StepKeepsValid(a, events[0]);
      RunKeepsInv(a.display, calls);
      RunKeepsPolicy(Step(a, events[0]), events[1..]);
    }
  }

  /**
    The refresh policy over every run of the application from its start: `Inv` holds of its display all along,
    so with automatic refresh and a limit of at least 1 every `limit` updates in a row include a full one.
    */
  lemma PolicyFromStart(rows: nat, cols: nat, font: ValidFont, blank: Surface, panel: Picture, config: RefreshConfig,
                        events: seq<Event>)
    requires 1 <= rows && 1 <= cols && blank.width % 2 == 0
    ensures AlwaysPolicy(Start(rows, cols, font, blank, panel, config), events)
  {
    hide AlwaysPolicy, Inv, Coherent, PanelShows, RefreshPolicy.RefreshFull;
    StartIsGood(rows, cols, font, blank, panel, config);
    var d := RefreshPolicy.Initial(blank.width, blank.height, config);
    InitialInv(blank.width, blank.height, config);
    assert RefreshPolicy.Step(d, RefreshFullCall) == RefreshFull(d);
    RefreshPolicy.StepKeepsInv(d, RefreshFullCall);
    RunKeepsPolicy(Start(rows, cols, font, blank, panel, config), events);
  }

  /** The cell's glyph, if it has one, looks on the panel as it does on the canvas. */
  ghost predicate CellAgrees(panel: Picture, r: Surface, f: ValidFont, ch: char, x: int, y: int)
  {
    f.Glyph(ch as nat).Some? ==>
      forall px, py :: r.On(px, py) && Box(f, x, y).Contains(px, py) ==> panel(px, py) == Get(r, px, py)
  }

  /** All cells of the row agree, except those in columns j and k. */
  ghost predicate RowAgrees(panel: Picture, r: Surface, f: ValidFont, line: seq<Cell>, row: nat, j: nat, k: nat)
  {
    forall c: nat :: c < |line| && c != j && c != k ==>
      CellAgrees(panel, r, f, line[c].ch, RowStart(c, f.width), RowStart(row, f.height))
  }

  lemma CellFromScratch(a: App, drawn: Surface, ch: char, x: int, y: int)
    requires WellFormed(a) && PanelShows(a.panel, a.canvas)
    requires drawn.width == a.canvas.width && drawn.height == a.canvas.height
    requires CellShown(a.canvas, a.font, ch, x, y, false) && CellShown(drawn, a.font, ch, x, y, false)
    ensures CellAgrees(a.panel, drawn, a.font, ch, x, y)
  {
    hide Get, Ink, Coherent, RowStart, ModernTerminal.Valid;
    if a.font.Glyph(ch as nat).Some? {
      forall px, py | drawn.On(px, py) && Box(a.font, x, y).Contains(px, py)
        ensures a.panel(px, py) == Get(drawn, px, py)
      {
        assert a.canvas.On(px, py);
      }
    }
  }

  /**
    What the incremental frames leave on the panel is what drawing the whole screen from scratch would give,
    on any background: in each row neither dirty nor stale every cell with a glyph agrees, except the cursor's
    and at most one other, where the cursor was when the row was last drawn.
    */
  lemma PanelIsFromScratch(a: App, stale: set<nat>, background: Surface, row: nat) returns (k: nat)
    requires Good(a, stale) && !a.help && row !in stale
    requires background.width == a.canvas.width && background.height == a.canvas.height
    requires row < a.screen.rows && !a.screen.dirty[row]
    ensures RowAgrees(a.panel, Render(background, a.font, a.screen, Fill(a.screen.rows, true)), a.font,
                      RowCells(a.screen, row), row, InvertedAt(a.screen, row), k)
  {
    hide Get, RenderRows, CellShown, CellAgrees, SameIn, InDirtyRow, RowCells, RowStart, PanelShows;
    var f, s, line := a.font, a.screen, RowCells(a.screen, row);
    var all := Fill(s.rows, true);
    var drawn := Render(background, f, s, all);
    RenderedRows(background, f, s, all, s.rows);
    assert RowCoherent(a.canvas, f, line, row);
    k :| RowShown(a.canvas, f, line, row, k);
    assert RowShown(drawn, f, line, row, InvertedAt(s, row));
    forall c: nat | c < |line| && c != InvertedAt(s, row) && c != k
      ensures CellAgrees(a.panel, drawn, f, line[c].ch, RowStart(c, f.width), RowStart(row, f.height))
    {
      CellFromScratch(a, drawn, line[c].ch, RowStart(c, f.width), RowStart(row, f.height));
    }
  }

  /** Two glyphs look different at (x, y) even when one is inverted: some pixel agrees and another does not. */
  ghost predicate TellsApart(canvas: Raster, f: ValidFont, c1: char, c2: char, x: int, y: int)
  {
    && f.Glyph(c1 as nat).Some? && f.Glyph(c2 as nat).Some?
    && (exists px, py :: SameInk(canvas, f, c1, c2, x, y, px, py, true))
    && (exists px, py :: SameInk(canvas, f, c1, c2, x, y, px, py, false))
  }

  ghost predicate SameInk(canvas: Raster, f: ValidFont, c1: char, c2: char, x: int, y: int,
                          px: int, py: int, same: bool)
    requires f.Glyph(c1 as nat).Some? && f.Glyph(c2 as nat).Some?
  {
    && canvas.On(px, py) && Box(f, x, y).Contains(px, py)
    && same == (Ink(f, f.Glyph(c1 as nat).value, py - y, px - x, 0, 0x0F) ==
                Ink(f, f.Glyph(c2 as nat).value, py - y, px - x, 0, 0x0F))
  }

  /** Inverting a glyph changes every pixel. */
  lemma InkInverted(f: Font, g: seq<bv8>, i: nat, j: nat)
    requires |g| == f.GlyphBytes() && i < f.height && j < f.width
    ensures Ink(f, g, i, j, 0x0F, 0) == if Ink(f, g, i, j, 0, 0x0F) == 0 then 0x0F else 0
  {
    hide Bit, RowStart;
  }

  /** What a pixel says about two glyphs shown in the same place. */
  lemma OnePixel(canvas: Surface, f: ValidFont, c1: char, c2: char, x: int, y: int, i1: bool, i2: bool,
                 px: int, py: int, same: bool)
    requires f.Glyph(c1 as nat).Some? && f.Glyph(c2 as nat).Some?
    requires CellShown(canvas, f, c1, x, y, i1) && CellShown(canvas, f, c2, x, y, i2)
    requires SameInk(canvas, f, c1, c2, x, y, px, py, same)
    ensures same == (i1 == i2)
  {
    hide Get, Ink, RowStart;
    InkInverted(f, f.Glyph(c1 as nat).value, py - y, px - x);
    InkInverted(f, f.Glyph(c2 as nat).value, py - y, px - x);
    var w := Get(canvas, px, py);
  }

  /**
    The one way to a stale cell: an ED 1 with a wrap pending that changes the row below without marking it
    leaves on the canvas a glyph that is no longer in the grid, so coherence fails.
    */
  lemma MissedMarkIsStale(canvas: Surface, f: ValidFont, s: ValidScreen, stale: set<nat>)
    requires Coherent(canvas, f, s, stale) && s.row + 1 !in stale
    requires MissesMark(s, EraseDisplay(1))
    requires TellsApart(canvas, f, RowCells(s, s.row + 1)[0].ch, ' ', 0, RowStart(s.row + 1, f.height))
    ensures !Coherent(canvas, f, Apply(s, EraseDisplay(1)), stale)
  {
    hide Get, CellShown, SameInk, RowStart, RowCells;
    var t, row := Apply(s, EraseDisplay(1)), s.row + 1;
    var y := RowStart(row, f.height);
    EraseFirstCell(s, row);
    NotMarkedBelow(s);
    FirstRow(f.width);
    assert RowCoherent(canvas, f, RowCells(s, row), row);
    var k: nat :| RowShown(canvas, f, RowCells(s, row), row, k);
    assert CellShown(canvas, f, RowCells(s, row)[0].ch, 0, y, 0 == k);
    if Coherent(canvas, f, t, stale) {
      assert RowCoherent(canvas, f, RowCells(t, row), row);
      var l: nat :| RowShown(canvas, f, RowCells(t, row), row, l);
      var ch := RowCells(s, row)[0].ch;
      var px, py :| SameInk(canvas, f, ch, ' ', 0, y, px, py, true);
      var qx, qy :| SameInk(canvas, f, ch, ' ', 0, y, qx, qy, false);
      OnePixel(canvas, f, ch, ' ', 0, y, 0 == k, 0 == l, px, py, true);
      OnePixel(canvas, f, ch, ' ', 0, y, 0 == k, 0 == l, qx, qy, false);
      assert false;
    }
  }

  /** The strip is the least rectangle around the dirty rows, over the whole width. */
  lemma DirtyRectIsLeast(dirty: seq<bool>, glyphHeight: nat, width: nat, box: Rect)
    requires forall row: nat :: row < |dirty| && dirty[row] ==>
               Within(Rect(0, RowStart(row, glyphHeight), width, glyphHeight), box)
    ensures Within(DirtyRect(dirty, glyphHeight, width), box)
  {
    hide RowStart, FirstDirty, AfterDirty;
    var first, after := FirstDirty(dirty), AfterDirty(dirty);
    if first < after {
      var top, bottom := RowStart(first, glyphHeight), RowStart(after - 1, glyphHeight);
      RowStartAdd(first, after - first, glyphHeight);
      NextRow(after - 1, glyphHeight);
      RowsApart(first, after - 1, glyphHeight);
      assert dirty[first] && dirty[after - 1];
      forall px, py | DirtyRect(dirty, glyphHeight, width).Contains(px, py) ensures box.Contains(px, py) {
        EmptyBand(first, after, glyphHeight);
        assert Rect(0, top, width, glyphHeight).Contains(px, top);
        assert Rect(0, bottom, width, glyphHeight).Contains(px, bottom + glyphHeight - 1);
      }
    }
  }

  lemma EmptyBand(first: nat, after: nat, glyphHeight: nat)
    requires first < after
    ensures RowStart(after - first, glyphHeight) > 0 ==> glyphHeight > 0
  {
    RowStartIsProduct(after - first, glyphHeight);
  }

  /** A frame updates the panel by what the log says and nothing else. */
  lemma ShowFollowsLog(a: ValidApp, canvas: Surface, rect: Rect, x: int, y: int)
    ensures var t := Show(a, canvas, rect);
            && (t.display.log == a.display.log ==> t.panel(x, y) == a.panel(x, y))
            && (forall box :: t.display.log == a.display.log + [Partial(box)] && !box.Contains(x, y) ==>
                  t.panel(x, y) == a.panel(x, y))
  {
    hide Get, Flush, Flushed;
    FlushShowsUpdate(a.panel, canvas, MarkDirty(a.display, rect), x, y);
  }

  /** Help shows its picture on every pixel of its rectangle. */
  lemma HelpShows(a: ValidApp, picture: Surface, rect: Rect, x: int, y: int)
    requires picture.width == a.canvas.width && picture.height == a.canvas.height
    requires picture.On(x, y) && rect.Contains(x, y)
    ensures Step(a, Help(picture, rect)).help && Step(a, Help(picture, rect)).panel(x, y) == Get(picture, x, y)
  {
    hide Get, Flushed;
    ShowPixel(a, picture, rect, x, y);
  }

  /** The panel is white from the start; leaving help whitens what no row of the screen covers. */
  lemma StartIsWhite(rows: nat, cols: nat, font: ValidFont, blank: Surface, panel: Picture, config: RefreshConfig,
                     x: int, y: int)
    requires 1 <= rows && 1 <= cols && blank.On(x, y)
    ensures Start(rows, cols, font, blank, panel, config).panel(x, y) == 0x0F
  {
    hide Get, RefreshPolicy.RefreshFull;
    ClearedPixel(blank, 0xFF, x, y);
  }

  lemma LeaveIsWhite(a: ValidApp, x: int, y: int)
    requires a.canvas.On(x, y)
    requires !InDirtyRow(a.font, a.screen, Fill(a.screen.rows, true), a.screen.rows, x, y)
    ensures LeaveHelp(a).panel(x, y) == 0x0F
  {
    hide Get, RenderRows, RefreshPolicy.RefreshFull, Rendering.RowShown, SameIn, RowStart;
    var screen := AllDirty(a.screen);
    RenderedRows(Cleared(a.canvas, 0xFF), a.font, screen, screen.dirty, screen.rows);
    ClearedPixel(a.canvas, 0xFF, x, y);
  }
}
