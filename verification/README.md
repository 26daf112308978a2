# Terminal engines, frame pipeline and their small cores

A Dafny 4.11 model of a Kindle terminal emulator that carries two engines side by side, with proofs of what its state
keeps over every run. `dafny verify dfyconfig.toml` checks everything.

**Legacy engine** (`terminal.c`). `LegacyTerminal`, `LegacyCommands` and `LegacyStream` give the state (a flat page
with one linear cursor, scroll region, origin mode, deferred wrap, attributes, and the history of rows scrolled off)
and what every control sequence and character does to it. `LegacySession` is the record itself: four arrays moved with
memmove and memset, fields updated in place, every method proved against those functions. `LegacySequences` says from
the bytes on which sequence runs which command with which numbers, and what these do is said in rows and columns:
`LegacyCursor` for cursor and erase commands, `LegacyRegions` for the scroll region and LF, `LegacyEffects` for
escapes, modes, colours, edits within a row and stored characters, `LegacyEditing` for what the loops amount to,
`LegacyScrollback` for what the bounded scrollback holds and what the viewport of `launchpad.c` shows. A command that
would index cells past the page ends in `Outside`, and `LegacyEditing.OutsideExactly` says when that is.

**Modern engine** (`terminal/`). `AnsiParser` is the byte-at-a-time parser, `ModernTerminal` the screen,
`ModernEffects` what each action does to it cell by cell, `TerminalSession` the object with its loops. `TwoEngines`
relates the two engines: on which input they agree, event by event in both directions, and that whole streams of such
input leave the same screen however the reads of either engine cut the stream.

**Frame pipeline** (`app/application.hpp`, `graphics/`). `Pixmaps` (packed pixels), `Fonts` and `FontRenderer` (hex
fonts), `Rendering` (drawing cells), `GlyphPictures` (a picture printed as a font line, loaded and drawn is the
picture), `Geometry` and `RefreshPolicy` (dirty region and refresh policy), `EinkDisplay` (the driver and the refresh
manager as objects), `FramePipeline` (the application as a state machine of output, frames and help), `FrameText`
(from font and grid to the pixels of the panel), `StaleCell` (the input on which a cell goes stale) and `Application`
(the object). The pipeline is three caches deep: rows, rectangle, panel. `FramePipeline.RunStaysGood` and
`FramePipeline.PanelIsFromScratch` say that what it leaves on the panel is what drawing the whole screen anew would
give.

**Smaller cores.** `PixBlt` (the legacy nibble blit), `HelpAutomaton` and `HelpTracker` (the typed word "help"),
`IniText` and `Config` (INI files), `Timers` and `EventLoop` (the timer sweep), `ByteQueue` and `ByteBuffer` (the
growing buffer), `Utf8`. `Blocks`, `Memory`, `Cells`, `Nibbles`, `Numbers`, `Decimal`, `Strings`, `Parameters`,
`ControlCharacters` and `Options` are shared.

Where the code does something other than expected, the model follows the code and a lemma gives the exact condition:

- ED 1 with a wrap pending blanks the first cell of the row below without marking that row
  (`ModernTerminal.ChangesAreMarked` is an if-and-only-if; `FramePipeline.MissedMarkIsStale` and, at an input,
  `StaleCell.StaleAfterErase` show the stale glyph; `FramePipeline.RunStaysGood` says that only such a row goes stale,
  and only until it is drawn).
- ED 2 homes the modern cursor but not the legacy one; LF, BS and TAB with a wrap pending, TAB near the right margin,
  control characters the modern engine drops, and CUP without a first parameter separate the engines
  (`TwoEngines.StepAgrees` and, after any stream, `TwoEngines.StreamThenEvent` are if-and-only-ifs;
  `TwoEngines.FullRowThenLineFeed` is a run from blank screens that separates them).
- IL never blanks the last row of its region (`LegacyEditing.InsertLinesIsOneMove`); ECMA-48 section 8.3.67 would.
- ICH moves attributes from cells before the cursor, so the attributes of a row are not restored by DCH
  (`LegacyEditing.InsertThenDelete` gives every cell of the page).
- CSI m with a number for bold, underline, blink or reverse, or one that ends these, also changes the background
  (`LegacyEffects.FrontKeepsBack` is an if-and-only-if).
- IND never scrolls, RIS does not clear the page (`LegacyEffects.EscapeSequences`), and LF from below the scroll
  region scrolls it twice (`LegacyRegions.LineFeedMoves`).
- The modern parser ends a control sequence at a private mark and prints the rest (`AnsiParser.PrivateModePrints`).
- The help tracker, once its buffer has overflowed, can fire on a line that is not "help" (`HelpAutomaton.FiresIff`
  says when it fires, `HelpAutomaton.FiresOnOtherLine` gives a line).
- What follows a NUL in a read is dropped, so the cutting of a stream into reads shows when a byte follows a NUL
  (`LegacyStream.CuttingHidden` is an if-and-only-if).
- A callback that arms a timer due at once can keep the sweep from ending, and one that cancels a timer can make it
  skip a due one (`Timers.EndsExactly` and `Timers.NoneLeftExactly` are if-and-only-ifs on the calls that callbacks
  may make; `Timers.DueArmedNeverEnds` and `Timers.CancelSkipsDue` are the runs).
- A blit of width 0 at an odd column writes two pixels outside its rectangle in each row (`PixBlt.KeepsOutsideExactly`
  is an if-and-only-if).
- The canvas fits the driver's surface exactly when the width is even (`EinkDisplay.CopyFits`).
- A four-byte UTF-8 sequence is read as another character and a stray byte (`Utf8.FourBytesMisread`), and overlong
  forms are read (`Utf8.OverlongRead`).
- A codepoint in a font line is read in 32 bits: more than eight digits wrap around (`Fonts.HexValueWraps`).

## Model

| member | source | states |
|---|---|---|
| `TwoEngines.SameScreen` | terminal.c:662-882 | From blank screens of one size, any stream of events both engines read alike leaves equal grids, corresponding cursors, nothing unread and the parser at Ground, for any cutting of the stream into reads on either side |
| `TwoEngines.StepAgrees` | terminal/terminal_session.hpp:135-219 | From related states one event leaves the engines related if and only if it is one of the inputs named by `Alike` |
| `TwoEngines.StreamAgrees` | terminal.c:662-882 | Over a whole stream the legacy engine consumes every byte and stays related to the modern one |
| `TwoEngines.StreamThenEvent` | terminal.c:662-882 | After any stream of events both engines read alike, one event more leaves them related if and only if it is alike too |
| `TwoEngines.FullRowThenLineFeed` | terminal/terminal_session.hpp:185-187 | From blank screens of any size at least 2 by 2, a full row of printable bytes and LF leave the engines unrelated |
| `TwoEngines.PrintAgrees` | terminal.c:828-869 | A printable byte keeps the engines related at any column, wrap pending or not, with or without scrolling |
| `TwoEngines.LineFeedAgrees` | terminal/terminal_session.hpp:185-187 | LF keeps them related exactly when no wrap is pending |
| `TwoEngines.TabAgrees` | terminal/terminal_session.hpp:195-204 | TAB keeps them related exactly when no wrap is pending and the next stop is not past the margin (or is the last column) |
| `TwoEngines.BackspaceAgrees` | terminal.c:720-725 | BS keeps them related exactly when no wrap is pending |
| `TwoEngines.CupAgrees` | terminal.c:355-379 | CUP keeps them related exactly when its parameters do not start with a separator, or the second is at most 1 |
| `TwoEngines.EraseAgrees` | terminal.c:428-439 | ED keeps them related for mode 0, for mode 1 before the page end, for mode 2 with the cursor home, and for other modes when there is nothing to erase; never else |
| `TwoEngines.StoredControlDiffers` | terminal.c:828-869 | Any other control character is stored by the legacy engine and dropped by the modern one, so the screens differ |
| `LegacyCommands.Step` | terminal.c:662-882 | Every character, escape and control sequence keeps 0 <= cur <= pagelen and the region 0 <= top < bottom <= rows, unless it leaves the page |
| `LegacyCommands.StepKeepsSize` | terminal.c:662-882 | No command changes the number of rows and columns |
| `LegacyCommands.CsiStep` | terminal.c:290-629 | Every CSI command keeps the invariant, unless it indexes past the page; what each does is stated from its bytes in `LegacySequences`, `LegacyCursor`, `LegacyRegions` and `LegacyEffects` |
| `LegacySequences.CursorSequences` | terminal.c:303-379 | The bytes ESC [ fields c, for c one of A B C D d G ` H f, run the cursor command with the numbers of the fields, 1 for those missing, and are consumed |
| `LegacySequences.EditSequences` | terminal.c:428-592 | The same for J K @ P X L M; ED and EL without a number are mode 0 |
| `LegacySequences.OtherSequences` | terminal.c:622-626 | Every other final byte but r and m does nothing |
| `LegacySequences.RunSequence` | terminal.c:260-289 | Any control sequence, with or without a private mark, is read whole and runs its command on the numbers its fields spell |
| `LegacySequences.ArgsOfFields` | terminal.c:277-284 | Written fields are read back as their numbers, at most three, up to the first empty field |
| `LegacyRegions.RegionScrolls` | terminal.c:593-607 | The bytes CSI t;b r, CUP to row b and LF, for 1 <= t < b <= rows: rows t..b move up by one, row b is blank, all other rows and the cursor's place stay |
| `LegacyRegions.RegionSequence` | terminal.c:593-607 | CSI t;b r sets the region to rows t..b and homes the cursor to row t; no numbers mean the whole page; margins out of range or order do nothing |
| `LegacyRegions.LineFeedMoves` | terminal.c:828-845 | LF goes a row down in its column; from the region's last row it scrolls the region, from below the region it scrolls twice and ends in the region's last row |
| `LegacyEffects.EscapeSequences` | terminal.c:768-809 | RIS homes the cursor and forgets the scrollback, nothing else; IND goes a row down as far as B() lets it and never scrolls; NEL is LF from the row's start; RI is as in `LegacyCursor` |
| `LegacyEffects.OtherEscapes` | terminal.c:762-826 | Every other two-byte escape does nothing |
| `LegacyEffects.CharsetSequences` | terminal.c:743-761 | ESC ( 0 turns line drawing on, ESC ) 0 only readies it, B turns it off, anything else does nothing |
| `LegacyEffects.AlignmentSequence` | terminal.c:810-821 | ESC # 8 fills the page with E in the current colours and leaves the cursor |
| `LegacyEffects.ModeSequences` | terminal.c:380-427 | CSI ? n h and l: cursor keys, page cleared and cursor home, origin mode with the cursor at the region's start or home, cursor shown or hidden; any other number does nothing |
| `LegacyEffects.RenditionSequence` | terminal.c:510-568 | CSI m changes the current attribute only: its numbers are taken in turn, up to the first unknown one; none is 0 |
| `LegacyEffects.RenditionPaints` | terminal.c:519-565 | What one number makes of foreground and background, as numbers 0 to 7; every other bit stays |
| `LegacyEffects.FrontKeepsBack` | terminal.c:523-544 | A number that sets the foreground leaves every background alone if and only if it is 30 to 37 |
| `LegacyEffects.InsertedCell` | terminal.c:291-302 | ICH cell by cell: blanks at the cursor, bytes n further on, attributes only as far as the last n columns |
| `LegacyEffects.DeletedCell` | terminal.c:581-592 | DCH cell by cell: the rest of the row n to the left, n blanks at its end |
| `LegacyEffects.ErasedCells` | terminal.c:617-621 | ECH cell by cell: n blanks from the cursor on, within the row |
| `LegacyEffects.NothingEdited` | terminal.c:291-302 | Parameter 0 of these edits nothing |
| `LegacyEffects.ClearSequence` | terminal.c:433-436 | CSI 2 J leaves a page of spaces in the current colours and the cursor where it was |
| `LegacyEffects.ControlsMove` | terminal.c:697-725 | CR, TAB and BS from every row and column: CR with a wrap pending goes to the row just filled, TAB to the next multiple of 8 or the last column, BS stops at the row's start |
| `LegacyEffects.ControlsSwitch` | terminal.c:704-711 | SO and SI switch line drawing and BEL does nothing |
| `LegacyEffects.CharacterStored` | terminal.c:846-869 | A character in a page with room fills the cursor's cell in the current colours and no other; drawn letters become their code page 437 sign and keep the cell's colours; the wrap flag exactly |
| `LegacyEffects.NewSession` | terminal.c:970-999 | A new session is blank and home with the whole page as region and every flag off |
| `LegacyTerminal.AutoScroll` | terminal.c:837-845 | The auto-scroll loop terminates, with the cursor as measure, leaves the cursor above the region's end and all but page, history and cursor unchanged |
| `LegacyEditing.AutoScrollInRegion` | terminal.c:837-845 | A cursor the loop moves ends inside the region |
| `LegacyEditing.ClampIsNearest` | terminal.c:235-253 | B() puts the cursor at the nearest place in the page, in the region when origin mode is on, and leaves a cursor already there |
| `LegacyEditing.AutoScrollTurns` | terminal.c:837-845 | The loop is no turn, one scroll, or two scrolls, by where the cursor stands |
| `LegacyEditing.OverflowUnreachable` | terminal.c:864-868 | Storing a character always advances the cursor by one within the page: the reset on overflow is never reached |
| `LegacyEditing.OutsideExactly` | terminal.c:290-629 | A command leaves the page if and only if the cursor is one past the last cell and the command is an erase, insert or delete that starts at the cursor |
| `LegacyEditing.FullPageThenErase` | terminal.c:440-452 | At an input: a page typed full from the start and then ESC [ K leaves the page |
| `LegacyEditing.InsertLinesIsOneMove` | terminal.c:497-509 | IL is one move of the rows below the cursor down by min(n, m-1), for m rows to the region's end; blank rows above, all other rows and state unchanged |
| `LegacyEditing.DeleteLinesIsOneMove` | terminal.c:569-580 | DL is one move up by min(n, m) for m >= 2, nothing for m < 2; attributes included, all other rows unchanged |
| `LegacyEditing.DeleteLinesScrollback` | terminal.c:200-223 | DL pushes rows to the scrollback exactly when the cursor is on row 0, namely the removed rows and then blanks |
| `LegacyEditing.InsertThenDelete` | terminal.c:291-302 | ICH n then DCH n, every cell of the page: with m = min(n, cols - curcol) the last m cells of the row are blank, the m before them (from the cursor on) keep their byte and take the attribute m cells further on, and all others come back whole |
| `LegacyEditing.ScrollUpRow` | terminal.c:200-223 | page_scroll row by row: each row of the region becomes the next, the last blank, others stay |
| `LegacyEditing.ScrollDownRow` | terminal.c:225-234 | page_scrolldown row by row |
| `LegacyCursor.UpMoves` | terminal.c:303-309 | CUU keeps the column and stops at the first row, also from one past the last cell; nothing else changes |
| `LegacyCursor.DownMoves` | terminal.c:310-316 | CUD keeps the column and stops at the last row; from one past the last cell it goes to that row's first column |
| `LegacyCursor.SidewaysMoves` | terminal.c:317-332 | CUF and CUB stay in their row and stop at its ends, then B() bounds them, by the region in origin mode |
| `LegacyCursor.ColumnMoves` | terminal.c:345-352 | CHA goes to its column, at most the last, as far as B() lets it; parameter 0 goes to the cell before the row |
| `LegacyCursor.VerticalMoves` | terminal.c:333-344 | VPA goes to its row in the same column as far as B() lets it and resets a region the row is not in; parameter 0 resets the region and goes to the first cell |
| `LegacyCursor.PositionMoves` | terminal.c:355-379 | CUP outside origin mode goes to the cell named by its clamped coordinates and resets a region the row is not in |
| `LegacyCursor.PositionInRegion` | terminal.c:355-379 | CUP in origin mode counts rows from the region's top; past the region's end the cursor goes to the first cell below it |
| `LegacyCursor.EraseLineCells` | terminal.c:440-452 | EL blanks exactly its part of the cursor's row; one past the last cell it leaves the page |
| `LegacyCursor.EraseDisplayCells` | terminal.c:428-439 | ED blanks exactly the cells before, after, or all of them, and leaves the cursor; one past the last cell ED 1 leaves the page |
| `LegacyCursor.ReverseIndexMoves` | terminal.c:800-809 | RI moves up a row, or scrolls the region down with the cursor in place, also from a row above the region; then B() bounds it |
| `LegacyScrollback.PushKeepsHolds` | terminal.c:206-218 | A push keeps the scrollback memory equal to the last `top` rows of the history, in order and with attributes, with top = min(sb_lines-1, rows scrolled off) |
| `LegacyScrollback.FullScreenScrollAppends` | terminal.c:200-223 | With the whole page as region, a scroll turns history and page into history and page with one blank row after them |
| `LegacyScrollback.DrawnIsWindow` | launchpad.c:774-793 | At position k the cells drawn, first from scrollback memory and then from the page, are the window of history and page that starts k rows above the page |
| `LegacyStream.ReadsAreOnePass` | terminal.c:900-918 | Any reads of bytes without ESC #, NULs included, give the state and leftover of one pass over what each read shows before its first NUL |
| `LegacyStream.ReadsOfText` | terminal.c:900-918 | For a stream without NUL and ESC #, every way of cutting it into reads gives the state and leftover of page_append on the whole stream |
| `LegacyStream.CuttingHidden` | terminal.c:681-681 | Every cutting of a stream shows the same bytes as one read of it if and only if nothing but NULs follows its first NUL |
| `LegacyStream.FullBufferEndsSession` | terminal.c:903-910 | Any control sequence unfinished after 1023 bytes is kept whole and leaves no room for a byte: only an empty read is left |
| `LegacyStream.AppendSplit` | terminal.c:662-882 | A buffer a + b: a NUL in a hides b; without one, the pass is one over a and then one over what a left and b |
| `LegacyStream.UnfinishedIsKept` | terminal.c:726-746 | Exactly an incomplete ESC, ESC ( or CSI is kept back, and it changes nothing |
| `LegacyStream.LexExtends` | terminal.c:260-289 | A complete sequence is read the same whatever follows it |
| `LegacyStream.PassEnds` | terminal.c:810-821 | What a pass leaves is empty or unfinished; only a final ESC # makes it read past the buffer |
| `LegacyStream.PassKeepsSize` | terminal.c:662-882 | A pass over any bytes ends in a valid state of the same size |
| `LegacySession.NextToken` | terminal.c:260-289 | The scan loop finds the sequence the lexer defines |
| `LegacySession.Session.PageAppend` | terminal.c:662-882 | The loop over the input, up to its first NUL, leaves the arrays and fields in exactly the state `Append` defines, with the scrollback agreeing with the history, and returns the unused bytes |
| `LegacySession.Session.TermScreen` | terminal.c:900-918 | A read appends to the leftover, processes it and keeps what is left; an empty read marks the session dead and changes nothing else |
| `LegacySession.Session.ReadAll` | terminal.c:900-918 | Any list of reads that fit the buffer leaves the record in the state of those reads, which for a stream without NUL and ESC # is that of one pass over the whole stream |
| `LegacySession.Session.ProcessScreen` | launchpad.c:760-794 | The clamped position and the cells drawn are the window of history and page; the cursor is drawn on its own cell when that is in view |
| `LegacySession.Session.PageScroll` | terminal.c:200-223 | The memory moves on page, attributes and both scrollback arrays are one scroll, and the scrollback still holds the last rows |
| `LegacySession.Session.PageScrollDown` | terminal.c:225-234 | The memory moves are one scroll down |
| `LegacySession.Session.AutoScroll` | terminal.c:837-845 | The loop computes AutoScroll |
| `LegacySession.Session.DoCsi` | terminal.c:290-629 | Every command of do_csi leaves the record in the state `CsiStep` defines |
| `LegacySession.Session.InsertBlanks` | terminal.c:291-302 | The overlapping moves of bytes and attributes are the insertion defined on cells |
| `LegacySession.Session.DeleteChars` | terminal.c:581-592 | The moves of bytes and attributes are the deletion defined on cells |
| `LegacySession.Session.EditLinesCommand` | terminal.c:497-509 | The loops of IL and DL with the region's top saved and restored |
| `LegacySession.Session.EraseCommand` | terminal.c:428-452 | ED and EL on the arrays, or the report that they would leave the page |
| `LegacySession.Session.CursorTo` | terminal.c:355-379 | CUP: clamping, origin mode and the reset of the region |
| `LegacySession.Session.StoreNextChar` | terminal.c:837-869 | Scrolling and storing a character, graphics characters included |
| `LegacySession.Session.EscapeChar` | terminal.c:762-826 | The two-character escapes |
| `LegacySession.Session.constructor` | terminal.c:953-999 | A new session is blank, home, with an empty scrollback |
| `AnsiParser.ParserUndoesEncoder` | terminal/ansi_parser.hpp:59-118 | Any text without ESC, control sequences with any fields (empty ones included) and any final byte, and two-byte escapes, cut into chunks anywhere, decode to exactly their prints and calls: H and f move, J erases, all others make no call |
| `AnsiParser.FeedConcat` | terminal/ansi_parser.hpp:59-92 | feed(a); feed(b) is feed(a+b), in state and calls |
| `AnsiParser.ChunksDoNotMatter` | terminal/ansi_parser.hpp:59-92 | Any number of chunks is one feed |
| `AnsiParser.FeedItem` | terminal/ansi_parser.hpp:95-118 | One such sequence yields its one call, with the first two fields as numbers and 0 for those missing, or none, and ends at Ground |
| `AnsiParser.PrivateModePrints` | terminal/ansi_parser.hpp:80-90 | A private mark ends the sequence: what follows ESC [ ? is printed |
| `Decimal.AtoiOfPrint` | terminal/ansi_parser.hpp:99-105 | Reading a printed number gives the number |
| `ModernTerminal.ChangesAreMarked` | terminal/terminal_session.hpp:152-219 | A call marks every row it changes if and only if it is not an ED 1 with a wrap pending that changes an unmarked row |
| `ModernTerminal.ActionsAreMarked` | terminal/terminal_session.hpp:135-219 | Over any run of calls every row that changes is marked, except the rows an ED 1 reached into without marking them |
| `ModernEffects.EraseCell` | terminal/terminal_session.hpp:152-173 | ED cell by cell, for every mode and cursor place, wrap pending included: mode 0 from the cursor, mode 1 up to its cell (the next row's first with a wrap pending), mode 2 everything and the cursor home, any other nothing; the rows marked exactly |
| `ModernEffects.AdvanceCell` | terminal/terminal_session.hpp:325-344 | Going down from the last row moves every row up, blanks the last and marks all; from another row it only moves the cursor |
| `ModernEffects.ControlCharacter` | terminal/terminal_session.hpp:179-205 | CR, LF, BS and TAB exactly: a TAB with no stop left goes to the start of the next row; other control characters do nothing |
| `ModernEffects.CharacterCell` | terminal/terminal_session.hpp:206-219 | A printed character fills its cell and no other, at the start of the next row when a wrap is pending, and marks its row only |
| `ModernEffects.MovedTo` | terminal/terminal_session.hpp:135-146 | CUP goes to its cell brought into the screen, 0 counting as 1, and marks the rows it leaves and reaches |
| `ModernEffects.NewScreen` | terminal/terminal_session.hpp:42-49 | A new screen is blank and home with every row marked |
| `ModernTerminal.ApplyAll` | terminal/terminal_session.hpp:135-219 | Every run of calls keeps the grid's size and the cursor within 0..cols of a row |
| `TerminalSession.Session.FeedInput` | terminal/terminal_session.hpp:126-128 | The parser loop with the session as handler leaves grid, cursor, marks and parser as defined, calls in order |
| `TerminalSession.Session.OnPrintChar` | terminal/terminal_session.hpp:179-219 | The handler computes the screen's print |
| `TerminalSession.Session.OnEraseDisplay` | terminal/terminal_session.hpp:152-173 | The erasing and marking loops |
| `TerminalSession.Session.OnCursorMove` | terminal/terminal_session.hpp:135-146 | The clamped move, both rows marked |
| `TerminalSession.Session.ScrollUp` | terminal/terminal_session.hpp:333-344 | The memmove and blanking loop are one scroll of the grid, all rows marked |
| `TerminalSession.Session.TakeDirtyRows` | terminal/terminal_session.hpp:75-80 | The marks are handed over and cleared |
| `TerminalSession.Session.Render` | terminal/terminal_session.hpp:291-316 | The loops over rows and columns draw the dirty rows on the canvas as defined by `Rendering.Render` |
| `FramePipeline.RunStaysGood` | app/application.hpp:211-235 | Over any run of output, frames, help screens and leaving help, in any order, whenever help is not shown the panel equals the canvas on every pixel and each row neither dirty nor stale shows the glyph of every cell, at most one of them inverted; a row is stale from an ED 1 that changes it without marking it until it is drawn |
| `FramePipeline.PolicyFromStart` | app/application.hpp:241-251 | Over any run of the application from its start the refresh invariant holds of its display: with automatic refresh and a limit L >= 1 any L consecutive updates include a full one |
| `FramePipeline.StepCalls` | app/application.hpp:211-235 | Each step of the application is a run of calls of the refresh manager |
| `FramePipeline.PanelIsFromScratch` | app/application.hpp:211-235 | In such a state each row neither dirty nor stale looks on the panel as a full redraw on any background would, except the cursor's cell and at most one other |
| `FrameText.FrameShowsText` | app/application.hpp:211-235 | After a frame, each point of the picture of each cell of a row that was dirty is black on the panel and the rest of the cell white, the other way round in the cursor's cell alone |
| `FramePipeline.ShowFollowsLog` | app/application.hpp:211-235 | A frame changes no pixel outside the area of the update in the log |
| `FramePipeline.DirtyRectIsLeast` | app/application.hpp:308-319 | The computed rectangle is the least around the dirty rows |
| `FramePipeline.HelpShows` | app/application.hpp:321-328 | Help is on the panel, on every pixel of its rectangle |
| `FramePipeline.StartIsWhite` | app/application.hpp:241-251 | The panel is white from the start |
| `FramePipeline.LeaveIsWhite` | app/application.hpp:330-339 | Leaving help whitens every pixel no row covers |
| `FramePipeline.FrameKeepsPanel` | app/application.hpp:211-235 | If the panel equals the canvas before a frame it does after it, whether the flush is partial, full or none |
| `FramePipeline.FrameKeepsGood` | app/application.hpp:211-235 | A frame keeps the whole invariant, also when its dirty rectangle is empty, and the rows it draws are not stale after it |
| `FramePipeline.LeaveKeepsGood` | app/application.hpp:330-339 | Leaving help restores the invariant from any canvas and panel with no row stale, and every row then shows its cells with the cursor inverted |
| `FramePipeline.FeedKeepsGood` | app/application.hpp:142-145 | Output keeps the invariant: every row it changes is marked, or becomes stale by an ED 1 that misses its mark |
| `FramePipeline.StartIsGood` | app/application.hpp:247-249 | The first copy and full refresh establish it |
| `FramePipeline.RenderCoherent` | terminal/terminal_session.hpp:291-316 | Drawing only the dirty rows leaves every row coherent but the stale ones not drawn: the others keep their pixels |
| `FramePipeline.MissedMarkIsStale` | terminal/terminal_session.hpp:166-172 | An ED 1 that misses its mark leaves a glyph on the canvas that the grid no longer has, when the two glyphs can be told apart |
| `StaleCell.StaleAfterErase` | terminal/terminal_session.hpp:166-172 | At an input: on a 2 by 2 screen, `a` in the second row, `b` at the end of the first, a frame and an ED 1 leave the `a` on the canvas, with any font that tells `a` from a blank |
| `StaleCell.TwoGlyphsTellApart` | graphics/font_renderer.hpp:155-175 | A font of two one-row glyphs does |
| `FramePipeline.DirtyRowInRect` | app/application.hpp:308-319 | Every canvas pixel of a dirty row lies in the computed rectangle |
| `FramePipeline.ShowPixel` | app/application.hpp:321-328 | After copying, marking and flushing, the marked pixels are those of the canvas, and any other is, or is as before |
| `Application.Application.RenderFrame` | app/application.hpp:211-235 | The method computes `Frame` on all its objects |
| `Application.Application.RestoreTerminalDisplay` | app/application.hpp:330-339 | The method computes `LeaveHelp` |
| `Application.Application.OnShellOutput` | app/application.hpp:254-266 | The read callback computes the output step: feed, then a frame unless help is shown |
| `Application.Application.ComputeDirtyRect` | app/application.hpp:308-319 | The loop finds the strip from the first to the last dirty row |
| `Application.Application.CopyCanvasToDriver` | app/application.hpp:341-346 | The surface becomes the canvas |
| `Application.Application.RenderHelp` | app/application.hpp:321-328 | Whatever the help renderer draws is copied, marked and flushed |
| `Application.Application.constructor` | app/application.hpp:58-67 | The objects start as `Start` says, which satisfies the invariant |
| `Rendering.DrawCharPixel` | graphics/font_renderer.hpp:155-175 | A drawn glyph sets exactly the pixels of its box on the canvas to its own bits' colours; every other pixel stays; a missing glyph draws nothing |
| `GlyphPictures.PictureRoundTrip` | graphics/font_renderer.hpp:155-175 | Any picture printed as a font line (top row first, leftmost column in the highest bit), loaded with any font around it and drawn at any place: each pixel of its box takes the foreground if and only if the picture is set there |
| `GlyphPictures.CellShowsShape` | terminal/terminal_session.hpp:291-316 | A cell shown on the canvas shows the picture of its character, black on white or inverted |
| `Rendering.RenderedRows` | terminal/terminal_session.hpp:291-316 | After drawing, each dirty row shows its cells and every pixel outside dirty rows is unchanged |
| `Rendering.RenderedCells` | terminal/terminal_session.hpp:304-314 | Glyph boxes of a row do not disturb each other, and nothing outside the row changes |
| `RefreshPolicy.RunKeepsInv` | graphics/eink_display.hpp:85-151 | Over any run the pending region is the least box with even x edges around the clipped marks since the last flush; with automatic refresh and limit L >= 1, partial updates in a row stay below L and any L consecutive updates include a full one |
| `RefreshPolicy.FlushDecides` | graphics/eink_display.hpp:127-173 | A flush after any run of calls, from the calls alone: no mark on the display, no update; else a full one if and only if automatic refresh is on and the limit is reached or the least aligned box around the marks is too large, otherwise a partial one of that box |
| `RefreshPolicy.FlushShowsUpdate` | graphics/eink_display.hpp:127-141 | The panel after a flush is what that update brings, pixel by pixel |
| `RefreshPolicy.RefreshFullLogs` | graphics/eink_display.hpp:146-150 | A full refresh makes a full update, whatever is pending |
| `RefreshPolicy.MarkKeepsRegion` | graphics/eink_display.hpp:85-109 | A mark keeps the region least and covering |
| `RefreshPolicy.RegionOnDisplay` | graphics/eink_display.hpp:85-109 | On a display of even width the region stays on the display |
| `RefreshPolicy.FlushedPixel` | graphics/eink_display.hpp:127-141 | A flush brings every marked pixel to the panel, partial or full |
| `EinkDisplay.EinkDisplay.MarkDirty` | graphics/eink_display.hpp:85-109 | The method computes the new region |
| `EinkDisplay.EinkDisplay.Flush` | graphics/eink_display.hpp:127-141 | The method clears the region, counts, and updates the panel, fully or partially |
| `EinkDisplay.EinkDisplay.RefreshFull` | graphics/eink_display.hpp:146-150 | The method clears region and count and refreshes the whole panel |
| `EinkDisplay.EinkDisplay.ShouldEscalateToFull` | graphics/eink_display.hpp:160-173 | Escalation by count or by area, which `RefreshPolicy.FlushDecides` states of runs |
| `EinkDisplay.CopyFits` | display/hardware_eink_driver.hpp:96-98 | The canvas fits the surface if and only if the width is even or there are no rows |
| `Geometry.Clip` | graphics/geometry.hpp:58-92 | Cutting the four sides one after the other gives exactly the pixels both rectangles contain |
| `Geometry.Intersection` | graphics/geometry.hpp:58-92 | A pixel is in it if and only if it is in both; empty means Rect(0,0,0,0) |
| `Geometry.AlignedIsLeast` | graphics/eink_display.hpp:91-97 | Rounding the x edges outward gives the least even-edged rectangle |
| `Geometry.HullIsLeast` | graphics/eink_display.hpp:104-108 | The union box is least |
| `Pixmaps.GetSet` | graphics/pixmap.hpp:66-97 | set_pixel changes its own pixel to the low four bits and no other, not even the one in the same byte; outside the surface it does nothing |
| `Pixmaps.PixelsDetermine` | graphics/pixmap.hpp:47-50 | On an even width equal pixels mean equal bytes: there is no unused nibble |
| `Pixmaps.ClearedPixel` | graphics/pixmap.hpp:56-58 | After clear every pixel is the fill's nibble |
| `Pixmaps.OwnedPixmap.SetPixel` | graphics/pixmap.hpp:66-79 | The masks and shifts compute `Set` |
| `Pixmaps.OwnedPixmap.GetPixel` | graphics/pixmap.hpp:87-97 | The masks and shifts read the pixel |
| `Fonts.LoadPrinted` | graphics/font_renderer.hpp:88-112 | Loading a printed font counts every line, gives each codepoint the last bitmap printed for it, and leaves all others as they were |
| `Fonts.GlyphAfterLine` | graphics/font_renderer.hpp:221-267 | An accepted line changes the glyph of its codepoint only; a rejected one changes none |
| `Fonts.PrintedLine` | graphics/font_renderer.hpp:221-267 | A printed line, in upper or lower case and with anything after the bitmap, is accepted for its codepoint and bitmap |
| `Fonts.AcceptsExactly` | graphics/font_renderer.hpp:221-267 | A line is accepted if and only if it is hexadecimal digits with a value below 65536 in 32 bits, a colon, the digits of a bitmap, and anything |
| `Fonts.HexDigitsAre` | graphics/font_renderer.hpp:227-238 | The hexadecimal digits are 0-9, a-f and A-F |
| `Fonts.ParseLine` | graphics/font_renderer.hpp:221-267 | Every offset still denotes a whole glyph inside the storage |
| `Fonts.HexValueWraps` | graphics/font_renderer.hpp:227-238 | The codepoint read is the value of the digits modulo 2^32 |
| `FontRenderer.FontRenderer.ParseHexLine` | graphics/font_renderer.hpp:221-267 | The method accepts exactly the acceptable lines; a rejected one, even midway through its bitmap, leaves storage and offsets unchanged |
| `FontRenderer.FontRenderer.LoadHexData` | graphics/font_renderer.hpp:88-112 | The line loop computes `Load` and reports whether a glyph was loaded |
| `FontRenderer.FontRenderer.GetGlyph` | graphics/font_renderer.hpp:73-79 | The glyph's bytes, or none |
| `FontRenderer.FontRenderer.DrawChar` | graphics/font_renderer.hpp:155-175 | The pixel loops compute `Rendering.DrawChar` |
| `PixBlt.Blt` | pixop.c:24-73 | Every pixel of the rectangle becomes the source pixel ORed with the background nibble of its column parity, every other pixel and nibble is unchanged, for all parities of dx and width; for width 0 at an odd column the two pixels of one byte in each row are written instead; the result is width * height |
| `PixBlt.RowDrawnNibble` | pixop.c:47-71 | One row, nibble by nibble: exactly the nibbles of the row change, or those of one byte for width 0 at an odd column |
| `PixBlt.OddRowNibble` | pixop.c:60-71 | The shifted row for an odd destination column |
| `PixBlt.EvenRowNibble` | pixop.c:47-59 | The copied row for an even destination column |
| `PixBlt.BltRowOdd` | pixop.c:63-70 | The byte loop writes the shifted row |
| `PixBlt.BltRowZero` | pixop.c:64-67 | For width 0 the loop body writes one byte, from the source byte and the one before it |
| `PixBlt.KeepsOutsideExactly` | pixop.c:60-71 | A blit leaves everything outside its rectangle alone, whatever the destination holds, if and only if width >= 1, or dx is even, or there are no rows |
| `PixBlt.ZeroWidthOverwrites` | pixop.c:64-67 | For width 0 the two writes to the first byte leave what a byte in the middle of a row would be, whatever it held |
| `PixBlt.BltRowEven` | pixop.c:49-58 | memcpy, OR loop and half byte write the copied row |
| `HelpAutomaton.FiresExactly` | help/help_command_tracker.hpp:40-89 | While the line has not exceeded 7 characters since it was last empty, its end fires if and only if it is "help"; after that a line "help" does not fire; within an escape nothing fires |
| `HelpAutomaton.FiresIff` | help/help_command_tracker.hpp:40-115 | On any history, overflows included: a character fires if and only if it is CR or LF and, since some moment at which the text was empty, the characters typed spell "help" |
| `HelpAutomaton.FeedReports` | help/help_command_tracker.hpp:26-32 | feed goes on from the tracker's state after any history and reports whether some character of its input fires |
| `HelpAutomaton.TrackedFollows` | help/help_command_tracker.hpp:40-115 | After any history the tracker holds the editor's line, or a shorter text once that line has exceeded its buffer, or is in the same escape state |
| `HelpAutomaton.OverflowBlocks` | help/help_command_tracker.hpp:105-115 | An overflow puts ~ for the first character and drops the new one, and nothing fires until the text has been empty |
| `HelpAutomaton.FiresOnOtherLine` | help/help_command_tracker.hpp:91-115 | A history whose line is "xhelp" fires |
| `HelpTracker.LenBits` | help/help_command_tracker.hpp:35-38 | Length and flag share a byte without interfering: at most 7 without a flag, 0 with one |
| `HelpTracker.HelpCommandTracker.ProcessChar` | help/help_command_tracker.hpp:40-63 | The bit-packed step computes the automaton's and keeps the length valid |
| `HelpTracker.HelpCommandTracker.FeedAll` | help/help_command_tracker.hpp:26-32 | The loop reports whether any character fired |
| `IniText.RoundTrip` | config/config.hpp:69-136 | Loading the printed text of any sections with writable keys and values gives back exactly the sections |
| `IniText.LoadPrinted` | config/config.hpp:69-136 | The same for any layout of blanks, blank lines and comments, with lines that are neither header nor entry left out |
| `IniText.PairSays` | config/config.hpp:104-133 | An entry line, with blanks anywhere around key and value and a comment after, adds exactly its key and value |
| `IniText.NothingBeforeHeader` | config/config.hpp:104-133 | Entries before the first header are lost |
| `IniText.SpacesAre` | config/config.hpp:84-89 | The characters trimmed are the six of isspace |
| `Config.Lookup` | config/config.hpp:141-148 | A value found is that of the first matching entry of the first matching section; none means that section has no such entry |
| `Config.CaseDoesNotMatter` | config/config.hpp:17-28 | Names that differ in case only find the same value |
| `Config.SameNameExactly` | config/config.hpp:17-28 | Names are the same if and only if they are letter by letter, a capital counting as its small letter |
| `Config.IEquals` | config/config.hpp:17-28 | True exactly when the lengths agree and every character does up to case |
| `Config.Config.LoadText` | config/config.hpp:69-136 | The loop rebuilds the sections as defined |
| `Config.Config.Get` | config/config.hpp:141-148 | The loop finds what `Lookup` defines |
| `Config.TrimView` | config/config.hpp:84-89 | The trimming loops leave the trimmed text |
| `Timers.SweepIsExact` | core/event_loop.hpp:140-153 | With callbacks that cancel nothing, a sweep that ends has fired exactly the multiset of due timers, and leaves exactly the others, of those there at its start and those armed; none armed is due when callbacks arm later timers only |
| `Timers.SweepWithCancels` | core/event_loop.hpp:140-153 | With callbacks that also cancel, a sweep that ends fired only due timers; each timer there at its start or armed is fired, cancelled or left |
| `Timers.TurnsAccount` | core/event_loop.hpp:142-153 | Whatever the callbacks do, after any number of turns the timers fired, cancelled and left are those there and those armed, and every one fired was due |
| `Timers.TurnsCount` | core/event_loop.hpp:142-153 | The k-th callback run is that of the k-th timer fired |
| `Timers.CallsKeepIds` | core/event_loop.hpp:76-88 | Over any calls from an empty loop the k-th timer armed has the k-th id, counting from 1 up to 2^32 - 1 and round again |
| `Timers.IdsDiffer` | core/event_loop.hpp:81-84 | No two of 2^32 - 1 timers armed in a row have the same id |
| `Timers.CancelRemoves` | core/event_loop.hpp:94-102 | While ids differ, cancelling one removes its timer and no other |
| `Timers.RoomForEight` | core/event_loop.hpp:76-88 | Eight timers fit, each armed with its time, delay and callback; a ninth is not armed |
| `Timers.CancelSkipsDue` | core/event_loop.hpp:94-102 | Three timers armed in an empty loop, the last two due: a callback that cancels the first one, whatever its id, moves a due one to a slot already scanned, and the sweep ends without firing it |
| `Timers.NoneLeftExactly` | core/event_loop.hpp:140-153 | For any set of calls that callbacks may make: every sweep that ends leaves no due timer if and only if none of the calls cancels an id that set_timer gives out |
| `Timers.DueArmedNeverEnds` | core/event_loop.hpp:142-153 | A callback that each time arms a timer due at once (delay 0, or a clock that went back) keeps the sweep going through any number of turns |
| `Timers.EndsExactly` | core/event_loop.hpp:140-153 | For any set of calls that callbacks may make: every sweep from every loop ends if and only if none of the calls arms a timer that is due |
| `Timers.SweepEnds` | core/event_loop.hpp:142-153 | A sweep whose callbacks arm no due timer takes at most 80 turns, whatever they cancel |
| `Timers.TurnLeavesFewer` | core/event_loop.hpp:143-149 | With such callbacks each turn leaves fewer turns: firing removes a due timer from those not yet scanned, and no call adds one |
| `EventLoop.EventLoop.RunTimers` | core/event_loop.hpp:140-153 | Whenever the sweep ends, whatever the callbacks arm and cancel, the swap-remove loop ends too and leaves the loop where it ended, with the callbacks run in order |
| `EventLoop.EventLoop.SetTimer` | core/event_loop.hpp:76-88 | A timer is armed with a non-zero id, or 0 is returned when all slots are taken |
| `EventLoop.EventLoop.CancelTimer` | core/event_loop.hpp:94-102 | The first timer with the id is removed |
| `ByteQueue.RunKeepsInv` | core/byte_buffer.hpp:79-138 | Over any run: bytes put in are bytes taken out followed by the contents; copied <= capacity <= max(64, 2 * largest capacity requested) |
| `ByteQueue.CopyingIsLinear` | core/byte_buffer.hpp:96-111 | All reallocations together copy at most max(64, twice the bytes appended), when no larger reservation is made |
| `ByteQueue.RunIsQueue` | core/byte_buffer.hpp:79-138 | Over any run the contents are the bytes of the appends, in order, without the prefix taken; a prefix longer than the contents is refused |
| `ByteQueue.Allocated` | core/byte_buffer.hpp:96-111 | The first allocation is 64 bytes, each later one doubles, or what is wanted when that is more |
| `ByteBuffer.ByteBuffer.Append` | core/byte_buffer.hpp:79-89 | The block holds the old bytes and the new ones |
| `ByteBuffer.ByteBuffer.Reserve` | core/byte_buffer.hpp:96-111 | Growing keeps the contents |
| `ByteBuffer.ByteBuffer.ShiftPrefix` | core/byte_buffer.hpp:118-131 | The prefix is dropped, or nothing when it is too long |
| `Utf8.DecodeAllUndoesEncodeAll` | terminal.c:632-656 | Decoding the RFC 3629 encoding of any code points U+0001..U+FFFF gives them back and consumes every byte |
| `Utf8.CutShortFails` | terminal.c:645-651 | A character cut short fails and consumes nothing |
| `Utf8.StrayByteFails` | terminal.c:644-655 | A continuation byte in the place of a lead byte fails |
| `Utf8.OverlongRead` | terminal.c:644-653 | Overlong two- and three-byte forms are read as the characters their bits spell |
| `Utf8.FourBytesMisread` | terminal.c:644-649 | A four-byte sequence is read as a three-byte one and leaves a byte that fails |

## Left out

- PTY spawning, select, ioctls, mmap, input devices, signals: foreign calls. The driver is one whose updates succeed; an update brings the pixels of its area to the panel.
- The clock: the time a sweep reads, the times at which callbacks arm timers and what they arm are parameters.
- EventLoop.EventLoop.RunTimers: says nothing of a sweep that does not end; `Timers.TurnsAccount` covers any number of its turns.
- UTF-8 page mode of the legacy engine and its split heuristic (terminal.c:682-691): the page is modelled with one byte per cell.
- PixBlt.Blt: for width 0 at an odd column assumes that the byte before the source row, which the code reads, exists (sx or sy above 0, sx within the source).
- FramePipeline.RunStaysGood: the debug overlay is off and the width is even; nothing is claimed about a row while it is stale, nor about the panel while help is shown.
- The help renderer's layout, the help controller and the key catalogs: what help draws is any picture, marked with any rectangle.
- LegacyCommands.Step: claims nothing about a command that indexes past the page (`Outside`), nor `LegacyStream.Pass` about one that reads past its buffer after a final ESC #.
- TwoEngines.SameScreen: starts from blank screens with the legacy engine in 8-bit mode, at least two rows and columns.
- Machine-integer overflow of sizes, coordinates and CSI parameters, and allocation failure. Codepoints of fonts and timer ids are modelled in 32 bits.
- The overlapping memcpy of DCH (terminal.c:585-587) is modelled as a memmove; sscanf and atoi only on the digits and separators the scanners let through.
- Cursor key and display flags are booleans instead of bits of kflags; names, colours and callbacks of a session are left out.
- OwnedPixmap::blit: exact for even offsets and widths only; the blit modelled is that of `pixop.c`.
- EinkDisplay.EinkDisplay.ShouldEscalateToFull: the float comparison of the area ratio with its threshold is any criterion on areas.
- config.c, dynstring.c, launchpad.c but for process_screen, logger, metrics, tools: storage, table lookups and telemetry.
- Loading a font or a configuration from a file: only its text is modelled.
- ByteBuffer move construction and assignment: ownership transfer between objects.
