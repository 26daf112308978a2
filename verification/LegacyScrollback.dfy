/** The bounded scrollback of the legacy engine against the unbounded history, and the viewport drawn from it. */
module LegacyScrollback {
  import opened Blocks
  import opened Cells
  import opened LegacyTerminal

  // page_scroll of terminal.c, and process_screen of launchpad.c.

  /** The last n rows of the history. */
  function LastRows(history: seq<Line>, n: nat): (rows: seq<Line>)
    requires n <= |history|
    ensures |rows| == n
  {
    history[|history| - n..]
  }

  function Capacity(sbLines: nat, pushed: nat): nat {
    if sbLines == 0 then 0 else if pushed <= sbLines - 1 then pushed else sbLines - 1
  }

  /** The part of the scrollback memory that holds n rows: its end. */
  function Held(sb: seq<Cell>, sbLines: nat, cols: nat, n: nat): (held: seq<Cell>)
    requires n <= sbLines && |sb| == RowStart(sbLines, cols)
  {
    RowsApart(sbLines - n, sbLines, cols);
    sb[RowStart(sbLines - n, cols)..]
  }

  /** The scrollback memory holds the newest rows of the history, as many as fit below its first row. */
  ghost predicate Holds(sb: seq<Cell>, sbLines: nat, cols: nat, top: nat, history: seq<Line>) {
    && |sb| == RowStart(sbLines, cols)
    && AllOfLength(history, cols)
    && top == Capacity(sbLines, |history|)
    && Held(sb, sbLines, cols, top) == Flatten(LastRows(history, top))
  }

  /** The writes of page_scroll to the scrollback: the rows held move up by one, the new row comes last. */
  function Push<T>(sb: seq<T>, sbLines: nat, cols: nat, top: nat, line: seq<T>): (sb': seq<T>)
    requires |sb| == RowStart(sbLines, cols) && top < sbLines && |line| == cols
    ensures |sb'| == |sb|
  {
    var t := RowStart(sbLines - top, cols);
    RowsApart(sbLines - top, sbLines, cols);
    RowsApart(sbLines - top - 1, sbLines - top, cols);
    RowsApart(sbLines - 1, sbLines, cols);
    Put(Moved(sb, t, cols, top > 1), RowStart(sbLines - 1, cols), line)
  }

  /** The memory from t on moved n towards the front, when there is anything to keep. */
  function Moved<T>(sb: seq<T>, t: nat, n: nat, move: bool): (r: seq<T>)
    requires n <= t <= |sb|
    ensures |r| == |sb|
  {
    if move then Put(sb, t - n, sb[t..]) else sb
  }

  /** What page_scroll does to `top` before it writes. */
  function Grown(sbLines: nat, top: nat): nat {
    if top < sbLines - 1 then top + 1 else top
  }

  /** The rows held after a push: the old ones but for the oldest when there is no room, and the new one. */
  lemma HeldAfterPush(sb: seq<Cell>, sbLines: nat, cols: nat, top: nat, line: Line)
    requires |sb| == RowStart(sbLines, cols) && 1 <= top < sbLines && |line| == cols
    ensures Held(Push(sb, sbLines, cols, top, line), sbLines, cols, top)
         == Held(sb, sbLines, cols, top - 1) + line
  {
    hide RowStart, Put, Moved;
    RowsApart(sbLines - top, sbLines, cols);
    RowsApart(sbLines - top, sbLines - 1, cols);
    NextRow(sbLines - 1, cols);
    NextRow(sbLines - top, cols);
    NextRow(sbLines - top - 1, cols);
    HeldAfterPut(sb, RowStart(sbLines - top, cols), cols, line, top > 1);
  }

  /** The same on offsets: the cells from t on move up by n, and n new ones come last. */
  lemma HeldAfterPut<T>(sb: seq<T>, t: nat, n: nat, line: seq<T>, move: bool)
    requires n <= t && t + n <= |sb| && |line| == n && (!move ==> t + n == |sb|)
    ensures Put(Moved(sb, t, n, move), |sb| - n, line)[t..] == sb[t + n..] + line
  {
  }

  lemma FlattenSnoc(rows: seq<Line>, line: Line)
    ensures Flatten(rows + [line]) == Flatten(rows) + line
  {
    assert (rows + [line])[..|rows|] == rows;
  }

  lemma FlattenSplit(rows: seq<Line>, k: nat, cols: nat)
    requires k <= |rows| && AllOfLength(rows, cols)
    ensures Flatten(rows) == Flatten(rows[..k]) + Flatten(rows[k..])
    ensures |Flatten(rows[..k])| == RowStart(k, cols) && |Flatten(rows[k..])| == RowStart(|rows| - k, cols)
  {
    assert rows == rows[..k] + rows[k..];
    FlattenConcat(rows[..k], rows[k..]);
    FlattenLength(rows[..k], cols);
    FlattenLength(rows[k..], cols);
  }

  /** A memory that holds the last n rows holds the last k of them. */
  lemma HeldSuffix(sb: seq<Cell>, sbLines: nat, cols: nat, n: nat, k: nat, history: seq<Line>)
    requires |sb| == RowStart(sbLines, cols) && k <= n <= sbLines && n <= |history| && AllOfLength(history, cols)
    requires Held(sb, sbLines, cols, n) == Flatten(LastRows(history, n))
    ensures Held(sb, sbLines, cols, k) == Flatten(LastRows(history, k))
  {
    hide RowStart;
    var rows := LastRows(history, n);
    FlattenSplit(rows, n - k, cols);
    assert rows[n - k..] == LastRows(history, k);
    RowStartAdd(sbLines - n, n - k, cols);
    RowStartAdd(n - k, k, cols);
    RowStartAdd(sbLines - k, k, cols);
  }

  /** Pushing a row keeps the scrollback in agreement with the history. */
  lemma PushKeepsHolds(sb: seq<Cell>, sbLines: nat, cols: nat, top: nat, history: seq<Line>, line: Line)
    requires sbLines > 0 && Holds(sb, sbLines, cols, top, history) && |line| == cols
    ensures Grown(sbLines, top) < sbLines
    ensures Holds(Push(sb, sbLines, cols, Grown(sbLines, top), line), sbLines, cols, Grown(sbLines, top),
                  history + [line])
  {
    hide RowStart, Held, Push, AllOfLength;
    AllOfLengthSnoc(history, line, cols);
    var grown := Grown(sbLines, top);
    if grown > 0 {
      HeldSuffix(sb, sbLines, cols, top, grown - 1, history);
      HeldAfterPush(sb, sbLines, cols, grown, line);
      assert LastRows(history + [line], grown) == LastRows(history, grown - 1) + [line];
      FlattenSnoc(LastRows(history, grown - 1), line);
    } else {
      HeldNothing(Push(sb, sbLines, cols, grown, line), sbLines, cols, history + [line]);
    }
  }

  lemma HoldsTop(sb: seq<Cell>, sbLines: nat, cols: nat, top: nat, history: seq<Line>)
    requires Holds(sb, sbLines, cols, top, history)
    ensures sbLines > 0 ==> top < sbLines
    ensures top <= |history|
  {
  }

  lemma AllOfLengthSnoc(history: seq<Line>, line: Line, cols: nat)
    requires AllOfLength(history, cols) && |line| == cols
    ensures AllOfLength(history + [line], cols)
  {
  }

  lemma HeldNothing(sb: seq<Cell>, sbLines: nat, cols: nat, history: seq<Line>)
    requires |sb| == RowStart(sbLines, cols)
    ensures Held(sb, sbLines, cols, 0) == Flatten(LastRows(history, 0))
  {
  }

  /** With the whole page as region, a scroll appends one blank row to history and page taken together. */
  lemma FullScreenScrollAppends(s: FormedState)
    requires s.top == 0 && s.bottom == s.rows
    ensures Flatten(ScrollUp(s).history) + ScrollUp(s).page
         == Flatten(s.history) + s.page + Fill(s.cols, Blank(s))
  {
    hide RowStart, AllOfLength;
    RegionInPage(s);
    FirstRow(s.cols);
    var first := s.page[..s.cols];
    FlattenSnoc(s.history, first);
    assert ScrollUp(s).page == s.page[s.cols..] + Fill(s.cols, Blank(s));
    assert first + (s.page[s.cols..] + Fill(s.cols, Blank(s))) == s.page + Fill(s.cols, Blank(s));
    assert Flatten(s.history) + first + ScrollUp(s).page
        == Flatten(s.history) + (first + ScrollUp(s).page);
    assert Flatten(s.history) + s.page + Fill(s.cols, Blank(s))
        == Flatten(s.history) + (s.page + Fill(s.cols, Blank(s)));
  }

  /** The window of history and page that starts k rows above the page. */
  function Window(history: seq<Line>, page: seq<Cell>, rows: nat, cols: nat, k: nat): (window: seq<Cell>)
    requires AllOfLength(history, cols) && k <= |history| && |page| == RowStart(rows, cols)
    ensures |window| == RowStart(rows, cols)
  {
    FlattenLength(history, cols);
    RowStartAdd(|history| - k, k, cols);
    var from := RowStart(|history| - k, cols);
    (Flatten(history) + page)[from..from + RowStart(rows, cols)]
  }

  /** The cells process_screen draws: first from the scrollback memory, then from the page. */
  function Drawn(sb: seq<Cell>, sbLines: nat, page: seq<Cell>, rows: nat, cols: nat, k: nat): seq<Cell>
    requires k <= sbLines && |sb| == RowStart(sbLines, cols) && |page| == RowStart(rows, cols)
  {
    var r := if k >= rows then rows else k;
    RowStartAdd(sbLines - k, k, cols);
    RowStartAdd(r, k - r, cols);
    RowStartAdd(r, rows - r, cols);
    var from := RowStart(sbLines - k, cols);
    sb[from..from + RowStart(r, cols)] + page[..RowStart(rows - r, cols)]
  }

  /** What is on screen at position k is the window of history and page that starts k rows above the page. */
  lemma DrawnIsWindow(sb: seq<Cell>, sbLines: nat, page: seq<Cell>, rows: nat, cols: nat,
                      top: nat, history: seq<Line>, k: nat)
    requires Holds(sb, sbLines, cols, top, history) && |page| == RowStart(rows, cols)
    requires k <= top
    ensures k <= |history| && k <= sbLines
    ensures Drawn(sb, sbLines, page, rows, cols, k) == Window(history, page, rows, cols, k)
  {
    hide RowStart, Flatten, AllOfLength, Drawn, Window;
    HeldSuffix(sb, sbLines, cols, top, k, history);
    WindowFromLast(history, page, rows, cols, k);
    DrawnFromHeld(sb, sbLines, page, rows, cols, k);
  }

  lemma WindowFromLast(history: seq<Line>, page: seq<Cell>, rows: nat, cols: nat, k: nat)
    requires AllOfLength(history, cols) && k <= |history| && |page| == RowStart(rows, cols)
    ensures var last := Flatten(LastRows(history, k));
            RowStart(rows, cols) <= |last| + |page|
            && Window(history, page, rows, cols, k) == (last + page)[..RowStart(rows, cols)]
  {
    hide RowStart, Flatten, AllOfLength;
    FlattenSplit(history, |history| - k, cols);
    FlattenLength(history, cols);
  }

  lemma DrawnFromHeld(sb: seq<Cell>, sbLines: nat, page: seq<Cell>, rows: nat, cols: nat, k: nat)
    requires k <= sbLines && |sb| == RowStart(sbLines, cols) && |page| == RowStart(rows, cols)
    ensures |Held(sb, sbLines, cols, k)| == RowStart(k, cols)
    ensures Drawn(sb, sbLines, page, rows, cols, k)
         == (Held(sb, sbLines, cols, k) + page)[..RowStart(rows, cols)]
  {
    hide RowStart;
    RowStartAdd(sbLines - k, k, cols);
    FirstRow(cols);
    var from := RowStart(sbLines - k, cols);
    if k >= rows {
      RowStartAdd(rows, k - rows, cols);
      AcrossSeam(sb, page, from, RowStart(rows, cols), RowStart(rows, cols));
    } else {
      RowStartAdd(k, rows - k, cols);
      AcrossSeam(sb, page, from, RowStart(k, cols), RowStart(rows, cols));
    }
  }

  /** The first `total` cells of the end of a followed by b: n of them from a. */
  lemma AcrossSeam<T>(a: seq<T>, b: seq<T>, from: nat, n: nat, total: nat)
    requires from + n <= |a| && n <= total <= n + |b| && (n == total || from + n == |a|)
    ensures a[from..from + n] + b[..total - n] == (a[from..] + b)[..total]
  {
  }
}
