/** The application object: session, font, canvas, driver and display, updated as FramePipeline says. */
module Application {
  import opened Blocks
  import opened Nibbles
  import opened Geometry
  import opened Pixmaps
  import opened Rendering
  import opened RefreshPolicy
  import opened EinkDisplay
  import FP = FramePipeline
  import FR = FontRenderer
  import MT = ModernTerminal
  import TS = TerminalSession
  import AP = AnsiParser

  class Application {
    const session: TS.Session
    const font: FR.FontRenderer
    const canvas: OwnedPixmap
    const driver: Driver
    const display: EinkDisplay
    var helpActive: bool

    ghost const Repr: set<object> := {this, session, canvas, driver, display}

    ghost function Abs(): FP.App
      reads this, session, font, canvas, driver, display
    {
      FP.App(session.Abs(), session.ParserState(), font.Abs(), canvas.Abs(), driver.Surface(), driver.panel,
             display.Abs(), helpActive)
    }

    ghost predicate Valid()
      reads this, session, font, canvas, driver, display
    {
      && canvas.Valid() && font.Valid() && display.driver == driver
      && FP.WellFormed(Abs())
    }

    /** The application when run has copied the white canvas and refreshed the panel. */
    constructor (rows: nat, cols: nat, font: FR.FontRenderer, driver: Driver, config: RefreshConfig)
      requires 1 <= rows && 1 <= cols && font.Valid() && driver.Valid() && driver.width % 2 == 0
      modifies driver
      ensures Valid() && this.font == font && this.driver == driver
      ensures fresh(Repr - {driver})
      ensures Abs() == FP.Start(rows, cols, old(font.Abs()), Raster(driver.width, driver.height,
                                  Fill(RowStart(driver.height, Stride(driver.width)), 0)), old(driver.panel), config)
      ensures FP.Good(Abs(), {})
    {
      hide RowStart, Get, RefreshPolicy.RefreshFull, FP.Coherent, FP.PanelShows;
      session := new TS.Session(rows, cols);
      this.font := font;
      canvas := new OwnedPixmap(driver.width, driver.height);
      this.driver := driver;
      display := new EinkDisplay(driver.width, driver.height, driver, config);
      helpActive := false;
      new;
      ghost var blank := canvas.Abs();
      ghost var panel := driver.panel;
      FP.StartIsGood(rows, cols, font.Abs(), blank, panel, config);
      canvas.Clear(0xFF);
      driver.surface := canvas.storage;
      var ok := display.RefreshFull();
    }

    /** compute_dirty_rect */
    method ComputeDirtyRect(dirtyRows: seq<bool>) returns (rect: Rect)
      ensures rect == FP.DirtyRect(dirtyRows, font.height, driver.width)
    {
      hide RowStart, FP.FirstDirty, FP.AfterDirty;
      var gh := font.height;
      var first, last := -1, -1;
      for r := 0 to |dirtyRows|
        invariant first < 0 ==> last < 0 && forall i :: 0 <= i < r ==> !dirtyRows[i]
        invariant first >= 0 ==> first <= last < r && dirtyRows[first] && dirtyRows[last]
        invariant first >= 0 ==> forall i :: 0 <= i < r && (i < first || last < i) ==> !dirtyRows[i]
      {
        if !dirtyRows[r] {
          continue;
        }
        if first < 0 {
          first := r;
        }
        last := r;
      }
      if first < 0 {
        return Rect(0, 0, 0, 0);
      }
      RowStartIsProduct(first, gh);
      RowStartIsProduct(last - first + 1, gh);
      return Rect(0, first * gh, driver.width, (last - first + 1) * gh);
    }

    /** copy_canvas_to_driver */
    method CopyCanvasToDriver()
      requires canvas.Valid() && driver.Valid() && driver.width == canvas.width && driver.height == canvas.height
      modifies driver`surface
      ensures driver.Surface() == canvas.Abs()
    {
      driver.surface := canvas.storage + driver.surface[|canvas.storage|..];
    }

    /** Copying the canvas, marking and flushing, with which every drawing ends. */
    method Show(rect: Rect)
      requires canvas.Valid() && display.driver == driver && driver.Valid()
      requires driver.width == canvas.width && driver.height == canvas.height
      requires display.bounds.width >= 0 && display.bounds.height >= 0
      modifies driver, display
      ensures Abs() == FP.Show(old(Abs()), canvas.Abs(), rect)
    {
      hide Flushed, RefreshPolicy.Flush, RefreshPolicy.MarkDirty, RowStart;
      CopyCanvasToDriver();
      display.MarkDirty(rect);
      var ok := display.Flush();
    }

    method RenderFrame()
      requires Valid()
      modifies session, canvas, driver, display
      ensures Valid() && Abs() == FP.Frame(old(Abs()))
    {
      hide RowStart, FP.DirtyRect, Rendering.Render, FP.Show, MT.Valid;
      ghost var before := Abs();
      var dirtyRows := session.TakeDirtyRows();
      var dirty := ComputeDirtyRect(dirtyRows);
      ghost var taken := Abs();
      assert taken == before.(screen := FP.Taken(before.screen));
      if dirty.IsEmpty() {
        return;
      }
      session.Render(canvas, font, dirtyRows);
      FP.ShowKeepsValid(taken, canvas.Abs(), dirty);
      ghost var drawn := Abs();
      Show(dirty);
      assert FP.Show(drawn, canvas.Abs(), dirty) == FP.Show(taken, canvas.Abs(), dirty) by {
        OldCanvasIrrelevant(taken, canvas.Abs(), dirty);
      }
    }

    lemma OldCanvasIrrelevant(a: FP.App, canvas: Raster, rect: Rect)
      requires a.canvas.Valid() && canvas.Valid()
      ensures FP.Show(a.(canvas := canvas), canvas, rect) == FP.Show(a, canvas, rect)
    {
    }

    method FeedTerminalOutput(data: string)
      requires Valid()
      modifies session
      ensures Valid() && Abs() == FP.FeedOutput(old(Abs()), data)
    {
      hide RowStart, AP.Feed, MT.ApplyAll;
      session.FeedInput(data);
    }

    /** The callback for bytes from the shell: they are fed, and a frame follows unless help is shown. */
    method OnShellOutput(data: string)
      requires Valid()
      modifies session, canvas, driver, display
      ensures Valid()
      ensures var fed := FP.Step(old(Abs()), FP.Output(data));
              FP.WellFormed(fed) && Abs() == if old(helpActive) then fed else FP.Step(fed, FP.DrawFrame)
    {
      hide FP.FeedOutput, FP.Frame, FP.WellFormed;
      FeedTerminalOutput(data);
      if !helpActive {
        RenderFrame();
      }
    }

    /** render_help, given what the help renderer leaves on the canvas and the rectangle it returns. */
    method RenderHelp(picture: seq<bv8>, dirty: Rect)
      requires Valid() && |picture| == |canvas.storage|
      modifies this, canvas, driver, display
      ensures Valid()
      ensures Abs() == FP.Step(old(Abs()), FP.Help(Raster(canvas.width, canvas.height, picture), dirty))
    {
      hide RowStart, FP.Show, MT.Valid;
      ghost var before := Abs();
      helpActive := true;
      canvas.storage := picture;
      FP.ShowKeepsValid(before, canvas.Abs(), dirty);
      Show(dirty);
      HelpFlag(before, canvas.Abs(), dirty);
    }

    lemma HelpFlag(a: FP.App, picture: Raster, rect: Rect)
      requires a.canvas.Valid() && picture.Valid()
      ensures FP.Show(a.(help := true, canvas := picture), picture, rect) == FP.Show(a, picture, rect).(help := true)
    {
    }

    method RestoreTerminalDisplay()
      requires Valid()
      modifies this, session, canvas, driver, display
      ensures Valid() && Abs() == FP.LeaveHelp(old(Abs()))
    {
      hide RowStart, Rendering.Render, RefreshPolicy.RefreshFull, MT.Valid, Refreshed;
      canvas.Clear(0xFF);
      session.MarkAllDirty();
      session.Render(canvas, font, Fill(session.rows, true));
      CopyCanvasToDriver();
      var ok := display.RefreshFull();
      helpActive := false;
    }
  }
}
