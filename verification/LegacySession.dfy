/** The legacy engine as terminal.c keeps it: one record, its arrays moved about by memmove and memset. */
module LegacySession {
  import opened Blocks
  import opened Numbers
  import opened Cells
  import opened Strings
  import opened Memory
  import opened ControlCharacters
  import opened LegacyTerminal
  import opened LegacyCommands
  import opened LegacyStream
  import opened LegacyScrollback

  // Every method is proved against the function of LegacyTerminal, LegacyCommands or LegacyStream it implements.

  /** The cells of a page and its attribute page. */
  function Zip(chars: seq<char>, attrs: seq<bv8>): (cells: seq<Cell>)
    requires |chars| == |attrs|
    ensures |cells| == |chars|
  {
    seq(|chars|, i requires 0 <= i < |chars| => Cell(chars[i], attrs[i]))
  }

  lemma ZipPut(a: seq<char>, b: seq<bv8>, at: nat, x: seq<char>, y: seq<bv8>)
    requires |a| == |b| && |x| == |y| && at + |x| <= |a|
    ensures Zip(Put(a, at, x), Put(b, at, y)) == Put(Zip(a, b), at, Zip(x, y))
  {
  }

  lemma ZipSlice(a: seq<char>, b: seq<bv8>, i: nat, j: nat)
    requires |a| == |b| && i <= j <= |a|
    ensures Zip(a[i..j], b[i..j]) == Zip(a, b)[i..j]
  {
  }

  lemma ZipDrop(a: seq<char>, b: seq<bv8>, i: nat)
    requires |a| == |b| && i <= |a|
    ensures Zip(a[i..], b[i..]) == Zip(a, b)[i..]
  {
  }

  lemma ZipUpdate(a: seq<char>, b: seq<bv8>, i: nat, c: char, attr: bv8)
    requires |a| == |b| && i < |a|
    ensures Zip(a[i := c], b[i := attr]) == Zip(a, b)[i := Cell(c, attr)]
    ensures Zip(a, b)[i] == Cell(a[i], b[i])
  {
  }

  lemma ZipFill(n: nat, c: char, attr: bv8)
    ensures Zip(Fill(n, c), Fill(n, attr)) == Fill(n, Cell(c, attr))
  {
  }

  lemma ZipPush(a: seq<char>, b: seq<bv8>, sbLines: nat, cols: nat, top: nat, x: seq<char>, y: seq<bv8>)
    requires |a| == |b| == RowStart(sbLines, cols) && top < sbLines && |x| == |y| == cols
    ensures Zip(Push(a, sbLines, cols, top, x), Push(b, sbLines, cols, top, y))
         == Push(Zip(a, b), sbLines, cols, top, Zip(x, y))
  {
    hide RowStart, Put, Zip, Moved;
    var t, last := RowStart(sbLines - top, cols), RowStart(sbLines - 1, cols);
    RowsApart(sbLines - top, sbLines, cols);
    RowsApart(sbLines - top - 1, sbLines - top, cols);
    RowsApart(sbLines - 1, sbLines, cols);
    ZipMoved(a, b, t, cols, top > 1);
    ZipPut(Moved(a, t, cols, top > 1), Moved(b, t, cols, top > 1), last, x, y);
  }

  lemma ZipMoved(a: seq<char>, b: seq<bv8>, t: nat, n: nat, move: bool)
    requires |a| == |b| && n <= t <= |a|
    ensures Zip(Moved(a, t, n, move), Moved(b, t, n, move)) == Moved(Zip(a, b), t, n, move)
  {
    hide Put, Zip;
    ZipPut(a, b, t - n, a[t..], b[t..]);
    ZipDrop(a, b, t);
  }

  /** The products in page_scroll are the offsets of the scrollback's rows. */
  lemma SavedOffsets(sbLines: nat, cols: nat, top: nat)
    requires top < sbLines
    ensures (sbLines - top) * cols == RowStart(sbLines - top, cols) >= cols
    ensures RowStart(sbLines - top, cols) + top * cols == RowStart(sbLines, cols)
    ensures (sbLines - 1) * cols == RowStart(sbLines - 1, cols)
    ensures RowStart(sbLines - 1, cols) + cols == RowStart(sbLines, cols)
    ensures 0 <= top * cols
  {
    RowStartAdd(sbLines - top, top, cols);
    RowStartIsProduct(sbLines - top, cols);
    RowStartIsProduct(top, cols);
    RowStartIsProduct(sbLines - 1, cols);
    NextRow(sbLines - 1, cols);
    NextRow(sbLines - top - 1, cols);
  }

  /** The writes of page_scroll to one of the two scrollback buffers, once `top` has its new value. */
  method SaveRow<T>(sb: array<T>, sbLines: nat, cols: nat, top: nat, page: array<T>)
    requires sb != page && sb.Length == RowStart(sbLines, cols) && top < sbLines && cols <= page.Length
    modifies sb
    ensures sb[..] == Push(old(sb[..]), sbLines, cols, top, page[..cols])
  {
    hide RowStart, Put;
    SavedOffsets(sbLines, cols, top);
    if top > 1 {
      var t := (sbLines - top) * cols;
      Memmove(sb, t - cols, t, top * cols);
      assert old(sb[t..t + top * cols]) == old(sb[..])[t..];
      assert sb[..] == Put(old(sb[..]), t - cols, old(sb[..])[t..]);
    }
    ghost var moved := sb[..];
    Memcpy(sb, (sbLines - 1) * cols, page, 0, cols);
    assert page[0..cols] == page[..cols];
    assert sb[..] == Put(moved, RowStart(sbLines - 1, cols), page[..cols]);
  }

  /** The bytes after the first move of CSI @. */
  function MovedBytes(p: seq<char>, cur: nat, n: nat, l: nat): (r: seq<char>)
    requires cur + n + l <= |p|
    ensures |r| == |p|
  {
    Put(p, cur + n, p[cur..cur + l])
  }

  /** The attributes after the second, as far as they survive the erasure that follows. */
  function MovedAttributes(t: seq<bv8>, cur: nat, n: nat, l: nat): (r: seq<bv8>)
    requires cur + n + l <= |t|
    ensures |r| == |t|
  {
    if l > n then Put(t, cur + n, t[cur..cur + l - n]) else t
  }

  lemma MovedByte(p: seq<char>, cur: nat, n: nat, width: nat, k: nat)
    requires cur + width <= |p| && n <= k < width
    ensures MovedBytes(p, cur, n, width - n)[cur + k] == p[cur + k - n]
  {
  }

  lemma MovedAttribute(t: seq<bv8>, cur: nat, n: nat, width: nat, k: nat)
    requires cur + width <= |t| && n <= k < width
    ensures MovedAttributes(t, cur, n, width - n)[cur + k] == if k < width - n then t[cur + k - n] else t[cur + k]
  {
  }

  lemma InsertedCell(tail: Line, n: nat, blank: Cell, k: nat)
    requires n <= k < |tail|
    ensures InsertCells(tail, n, blank)[k]
         == Cell(tail[k - n].ch, if k < |tail| - n then tail[k - n].attr else tail[k].attr)
  {
  }

  /** Cell k of the row's tail after the moves of CSI @, for the cells the erasure leaves alone. */
  lemma InsertMovedAt(p: seq<char>, t: seq<bv8>, cur: nat, n: nat, width: nat, blank: Cell, k: nat)
    requires |p| == |t| && cur + width <= |p| && n <= k < width
    ensures Zip(MovedBytes(p, cur, n, width - n), MovedAttributes(t, cur, n, width - n))[cur + k]
         == InsertCells(Zip(p, t)[cur..cur + width], n, blank)[k]
  {
    hide MovedBytes, MovedAttributes, InsertCells;
    MovedByte(p, cur, n, width, k);
    MovedAttribute(t, cur, n, width, k);
    var tail := Zip(p, t)[cur..cur + width];
    InsertedCell(tail, n, blank, k);
    assert tail[k - n] == Cell(p[cur + k - n], t[cur + k - n]) && tail[k] == Cell(p[cur + k], t[cur + k]);
  }

  lemma MovedOutside(p: seq<char>, t: seq<bv8>, cur: nat, n: nat, l: nat, i: nat)
    requires |p| == |t| && cur + n + l <= |p| && i < |p| && (i < cur || cur + n + l <= i)
    ensures Zip(MovedBytes(p, cur, n, l), MovedAttributes(t, cur, n, l))[i] == Zip(p, t)[i]
  {
  }

  lemma InsertedBlank(tail: Line, n: nat, blank: Cell, k: nat)
    requires k < n <= |tail|
    ensures InsertCells(tail, n, blank)[k] == blank
  {
  }

  lemma InsertMoved(p: seq<char>, t: seq<bv8>, cur: nat, n: nat, width: nat, blank: Cell)
    requires |p| == |t| && cur + width <= |p| && n <= width
    ensures var moved := Zip(MovedBytes(p, cur, n, width - n), MovedAttributes(t, cur, n, width - n));
            Put(moved, cur, Fill(n, blank))
            == Put(Zip(p, t), cur, InsertCells(Zip(p, t)[cur..cur + width], n, blank))
  {
    hide MovedBytes, MovedAttributes, InsertCells, Zip;
    var moved := Zip(MovedBytes(p, cur, n, width - n), MovedAttributes(t, cur, n, width - n));
    var a := Put(moved, cur, Fill(n, blank));
    var b := Put(Zip(p, t), cur, InsertCells(Zip(p, t)[cur..cur + width], n, blank));
    forall i | 0 <= i < |a| ensures a[i] == b[i] {
      if cur + n <= i < cur + width {
        InsertMovedAt(p, t, cur, n, width, blank, i - cur);
      } else if i < cur || cur + width <= i {
        MovedOutside(p, t, cur, n, width - n, i);
      } else {
        InsertedBlank(Zip(p, t)[cur..cur + width], n, blank, i - cur);
      }
    }
  }

  lemma DeleteMoved(page: seq<Cell>, cur: nat, n: nat, width: nat, blank: Cell)
    requires cur + width <= |page| && n <= width
    ensures Put(Put(page, cur, page[cur + n..cur + width]), cur + width - n, Fill(n, blank))
         == Put(page, cur, DeleteCells(page[cur..cur + width], n, blank))
    ensures n == width ==>
              Put(page, cur, Fill(width, blank)) == Put(page, cur, DeleteCells(page[cur..cur + width], n, blank))
  {
  }

  /** The move and the erasure of CSI P, or the erasure alone when the whole tail goes. */
  lemma DeleteIsMove(s: ValidState, n: nat)
    requires s.cur < PageLen(s) && n <= s.cols - CurCol(s)
    ensures s.cur + s.cols - CurCol(s) <= |s.page|
    ensures var end := s.cur + s.cols - CurCol(s);
            var deleted := WithTail(s, DeleteCells(Tail(s), n, Blank(s)));
            && LegacyTerminal.Erase(s.(page := Put(s.page, s.cur, s.page[s.cur + n..end])), end - n, n) == deleted
            && (s.cur + n == end ==> LegacyTerminal.Erase(s, s.cur, n) == deleted)
  {
    hide RowStart, AllOfLength, DeleteCells, Put;
    RowAroundCursor(s);
    DeleteMoved(s.page, s.cur, n, s.cols - CurCol(s), Blank(s));
  }

  /** How page_append ends: with the bytes it leaves unused, or having left the page or the buffer. */
  datatype Exit = Unused(rest: string) | LeftPage | LeftBuffer

  /** The scan of page_append and do_csi for the next complete unit of input. */
  method NextToken(s: string) returns (r: Lexed)
    requires |s| > 0
    ensures r == Lex(s)
  {
    if s[0] != ESC {
      return Complete(Plain(s[0]), 1);
    }
    if |s| == 1 {
      return Incomplete;
    }
    if s[1] == '[' {
      if |s| == 2 {
        return Incomplete;
      }
      var mark, base := ' ', 2;
      if IsPrivateMark(s[2]) {
        mark, base := s[2], 3;
      }
      var parm := base;
      while parm < |s| && IsParam(s[parm])
        invariant base <= parm <= |s|
        invariant ParamsEnd(s, parm) == ParamsEnd(s, base)
      {
        parm := parm + 1;
      }
      return if parm == |s| then Incomplete else Complete(Csi(s[parm], mark, s[base..parm]), parm + 1);
    }
    if s[1] in {'(', ')'} {
      return if |s| == 2 then Incomplete else Complete(Charset(s[1], s[2]), 3);
    }
    if s[1] == '#' {
      return if |s| == 2 then PastEnd else Complete(Dec(s[2]), 3);
    }
    return Complete(Escape(s[1]), 2);
  }

  lemma DecModeIs(s: ValidState, on: bool, mode: nat)
    ensures DecMode(s, on, mode) ==
            if mode == 1 then s.(cursorKeys := on)
            else if mode == 3 then Erase(s.(cur := 0), 0, PageLen(s))
            else if mode == 25 then s.(hidden := !on)
            else if mode == 6 then s.(originMode := on, wrapped := false, cur := if on then TopCell(s) else 0)
            else s
  {
    hide RowStart, AllOfLength, Erase;
  }

  lemma BackIs(s: ValidState, a: nat)
    ensures Back(s, a) == Clamp(s.(cur := s.cur - Min(AtLeastOne(a), CurCol(s))))
  {
    hide RowStart, AllOfLength, Clamp, CurCol;
  }

  lemma DownIs(s: ValidState, a: nat)
    ensures var down := s.cur + RowStart(AtLeastOne(a), s.cols);
            Down(s, a) == s.(cur := if down >= PageLen(s) then PageLen(s) - s.cols + CurCol(s) else down)
  {
    hide RowStart, AllOfLength, CurCol;
  }

  /** The loop of CSI m over its (at most three) parameters. */
  method ApplyRenditions(attr: bv8, list: seq<nat>) returns (a: bv8)
    ensures a == Renditions(attr, list)
  {
    hide Rendition;
    var i, more := 0, true;
    a := attr;
    while more && i < |list|
      invariant 0 <= i <= |list|
      invariant (if more then Renditions(a, list[i..]) else a) == Renditions(attr, list)
    {
      var (m, b) := Rendition(a, list[i]);
      assert list[i..][1..] == list[i + 1..];
      more, a, i := m, b, i + 1;
    }
  }

  class Session {
    const rows: nat
    const cols: nat
    const pagelen: nat
    const sbLines: nat
    const page: array<char>
    const attributes: array<bv8>
    const sbPage: array<char>
    const sbAttributes: array<bv8>
    var cur: int
    var scrollTop: nat
    var scrollBottom: nat
    var originMode: bool
    var wrapped: bool
    var graphics: bool
    var dographic: bool
    var cursorKeys: bool
    var hidden: bool
    var curAttr: bv8
    var top: nat          // rows held in the scrollback
    var sbuf: string      // bytes read but not consumed
    var dead: bool        // fd is -1
    ghost var history: seq<Line>

    /** No two of the four buffers are the same. */
    ghost predicate Apart() {
      && page != sbPage && attributes != sbAttributes
      && page as object != attributes as object && sbPage as object != sbAttributes as object
      && page as object != sbAttributes as object && sbPage as object != attributes as object
    }

    ghost predicate Shape()
    {
      && 1 <= rows && 1 <= cols
      && pagelen == RowStart(rows, cols)
      && page.Length == pagelen && attributes.Length == pagelen
      && sbPage.Length == RowStart(sbLines, cols) && sbAttributes.Length == RowStart(sbLines, cols)
      && Apart()
    }

    ghost function Cells(): (cells: seq<Cell>)
      requires Shape()
      reads page, attributes
      ensures |cells| == pagelen
    {
      Zip(page[..], attributes[..])
    }

    ghost function Saved(): (cells: seq<Cell>)
      requires Shape()
      reads sbPage, sbAttributes
      ensures |cells| == RowStart(sbLines, cols)
    {
      Zip(sbPage[..], sbAttributes[..])
    }

    /** The state this record stands for. */
    ghost function Abs(): State
      requires Shape()
      reads this, page, attributes
    {
      State(rows, cols, Cells(), cur, scrollTop, scrollBottom, originMode, wrapped,
            graphics, dographic, cursorKeys, hidden, curAttr, history)
    }

    ghost predicate ScrollbackAgrees()
      requires Shape()
      reads this, sbPage, sbAttributes
    {
      Holds(Saved(), sbLines, cols, top, history)
    }

    /** Valid but for the position of the cursor. */
    ghost predicate Formed()
      reads this, page, attributes, sbPage, sbAttributes
    {
      Shape() && WellFormed(Abs()) && ScrollbackAgrees()
    }

    ghost predicate Valid()
      reads this, page, attributes, sbPage, sbAttributes
      ensures Valid() ==> Shape() && LegacyTerminal.Valid(Abs())
    {
      Formed() && 0 <= cur <= pagelen
    }

    /** term_new, once the geometry has been checked. */
    constructor (rows: nat, cols: nat, sbLines: nat)
      requires 1 <= rows && 1 <= cols
      ensures Valid() && Abs() == Initial(rows, cols) && this.sbLines == sbLines
      ensures sbuf == "" && !dead
      ensures fresh(page) && fresh(attributes) && fresh(sbPage) && fresh(sbAttributes)
    {
      hide Held, RowStart;
      RowStartIsProduct(rows, cols);
      RowStartIsProduct(sbLines, cols);
      this.rows, this.cols, this.sbLines := rows, cols, sbLines;
      pagelen := rows * cols;
      page := new char[rows * cols](_ => ' ');
      attributes := new bv8[rows * cols](_ => 0);
      sbPage := new char[sbLines * cols](_ => ' ');
      sbAttributes := new bv8[sbLines * cols](_ => 0);
      cur, scrollTop, scrollBottom, curAttr, top := 0, 0, rows, 0, 0;
      originMode, wrapped, graphics, dographic, cursorKeys, hidden := false, false, false, false, false, false;
      sbuf, dead := "", false;
      history := [];
      new;
      ZipFill(rows * cols, ' ', 0);
      assert page[..] == Fill(rows * cols, ' ') && attributes[..] == Fill(rows * cols, 0);
      HeldNothing(Saved(), sbLines, cols, []);
    }

    /** The fields of the state are the fields of this record. */
    lemma Fields()
      requires Formed()
      ensures PageLen(Abs()) == |Abs().page| == pagelen
      ensures Abs().cur == cur && Abs().rows == rows && Abs().cols == cols
      ensures Abs().top == scrollTop && Abs().bottom == scrollBottom && scrollTop < scrollBottom <= rows
      ensures Abs().originMode == originMode && Abs().wrapped == wrapped
      ensures Abs().graphics == graphics && Abs().dographic == dographic && Abs().attr == curAttr
      ensures Abs().cursorKeys == cursorKeys && Abs().hidden == hidden
      ensures Shape() && LegacyTerminal.WellFormed(Abs())
      ensures 0 <= cur <= pagelen <==> Valid()
    {
      hide Cells, Saved, RowStart, Holds, AllOfLength;
    }

    /** erase */
    method Erase(start: nat, n: nat)
      requires Formed() && start + n <= pagelen
      modifies page, attributes
      ensures Formed() && Abs() == LegacyTerminal.Erase(old(Abs()), start, n)
    {
      Memset(page, start, ' ', n);
      Memset(attributes, start, curAttr, n);
      ZipPut(old(page[..]), old(attributes[..]), start, Fill(n, ' '), Fill(n, curAttr));
      ZipFill(n, ' ', curAttr);
    }

    /** The macro B(). */
    method Clamp()
      requires Formed()
      modifies this`cur
      ensures Valid() && Abs() == LegacyTerminal.Clamp(old(Abs()))
    {
      RegionInPage(Abs());
      RowStartIsProduct(scrollTop, cols);
      RowStartIsProduct(scrollBottom, cols);
      if originMode {
        if cur < scrollTop * cols {
          cur := scrollTop * cols;
        } else if cur > scrollBottom * cols {
          cur := scrollBottom * cols;
        }
      } else {
        if cur < 0 {
          cur := 0;
        } else if cur > pagelen {
          cur := pagelen;
        }
      }
    }

    /** The writes of page_scroll to the scrollback, buffer by buffer. */
    method SaveBuffers()
      requires Shape() && top < sbLines
      modifies this`top, sbPage, sbAttributes
      ensures top == Grown(sbLines, old(top)) < sbLines && cols <= pagelen
      ensures sbPage[..] == Push(old(sbPage[..]), sbLines, cols, top, page[..cols])
      ensures sbAttributes[..] == Push(old(sbAttributes[..]), sbLines, cols, top, attributes[..cols])
    {
      hide Push, RowStart;
      FirstRowInPage();
      if top < sbLines - 1 {
        top := top + 1;
      }
      SaveRow(sbPage, sbLines, cols, top, page);
      SaveRow(sbAttributes, sbLines, cols, top, attributes);
    }

    /** The writes of page_scroll to the scrollback, and what they mean. */
    method SaveFirstRow()
      requires Formed() && sbLines > 0
      modifies this`top, this`history, sbPage, sbAttributes
      ensures Formed() && Abs() == old(Abs()).(history := old(history) + [old(Abs()).page[..cols]])
    {
      hide Put, Zip, RowStart, Holds, Push, AllOfLength;
      FirstRowInPage();
      ghost var a, b, x, y := sbPage[..], sbAttributes[..], page[..cols], attributes[..cols];
      ZipSlice(page[..], attributes[..], 0, cols);
      assert page[..][0..cols] == x && attributes[..][0..cols] == y;
      AllOfLengthSnoc(history, Zip(x, y), cols);
      HoldsTop(Zip(a, b), sbLines, cols, top, history);
      PushKeepsHolds(Zip(a, b), sbLines, cols, top, history, Zip(x, y));
      SaveBuffers();
      ZipPush(a, b, sbLines, cols, top, x, y);
      history := history + [Zip(x, y)];
    }

    lemma FirstRowInPage()
      requires Shape()
      ensures cols <= pagelen
    {
      FirstRow(cols);
      RowsApart(0, rows, cols);
    }

    /** The first half of page_scroll: row 0 is saved when the region starts there. */
    method SaveIfFirst()
      requires Formed()
      modifies this`top, this`history, sbPage, sbAttributes
      ensures Formed()
      ensures Abs() == old(Abs()).(history :=
                if scrollTop == 0 then old(history) + [old(Abs()).page[..cols]] else old(history))
    {
      hide Put, Zip, RowStart;
      FirstRowInPage();
      if scrollTop == 0 && sbLines > 0 {
        SaveFirstRow();
      } else if scrollTop == 0 {
        AllOfLengthSnoc(history, Abs().page[..cols], cols);
        history := history + [Abs().page[..cols]];
      }
    }

    /** page_scroll */
    method PageScroll()
      requires Formed()
      modifies this`top, this`history, page, attributes, sbPage, sbAttributes
      ensures Formed() && Abs() == ScrollUp(old(Abs()))
    {
      hide Put, Zip, RowStart, Holds, AllOfLength;
      FirstRowInPage();
      RegionInPage(Abs());
      SaveIfFirst();
      var p, l := scrollTop * cols, (scrollBottom - scrollTop - 1) * cols;
      RegionOffsets();
      MoveCells(p, p + cols, l);
      Erase((scrollBottom - 1) * cols, cols);
    }

    /** page_scrolldown */
    method PageScrollDown()
      requires Formed()
      modifies page, attributes
      ensures Formed() && Abs() == ScrollDown(old(Abs()))
    {
      hide Put, Zip, RowStart, Holds, AllOfLength;
      RegionInPage(Abs());
      var p, l := scrollTop * cols, (scrollBottom - scrollTop - 1) * cols;
      RegionOffsets();
      MoveCells(p + cols, p, l);
      Erase(scrollTop * cols, cols);
    }

    /** The products in page_scroll are the offsets of the region's rows. */
    lemma RegionOffsets()
      requires Shape() && scrollTop < scrollBottom
      ensures scrollTop * cols == RowStart(scrollTop, cols)
      ensures scrollBottom * cols == RowStart(scrollBottom, cols)
      ensures (scrollBottom - 1) * cols == RowStart(scrollBottom, cols) - cols
      ensures (scrollBottom - scrollTop - 1) * cols
           == RowStart(scrollBottom, cols) - RowStart(scrollTop, cols) - cols >= 0
    {
      var n := scrollBottom - scrollTop - 1;
      RowStartIsProduct(scrollTop, cols);
      RowStartIsProduct(scrollBottom, cols);
      RowStartIsProduct(scrollBottom - 1, cols);
      RowStartIsProduct(n, cols);
      RowStartAdd(scrollTop, n, cols);
      NextRow(scrollBottom - 1, cols);
    }

    /** The two memmoves that shift bytes and attributes alike. */
    method MoveCells(dst: nat, src: nat, n: nat)
      requires Formed() && dst + n <= pagelen && src + n <= pagelen
      modifies page, attributes
      ensures Formed()
      ensures Abs() == old(Abs()).(page := Put(old(Abs()).page, dst, old(Abs()).page[src..src + n]))
    {
      hide Put, Zip, RowStart, AllOfLength, Holds;
      Memmove(page, dst, src, n);
      Memmove(attributes, dst, src, n);
      ZipSlice(old(page[..]), old(attributes[..]), src, src + n);
      assert old(page[..])[src..src + n] == old(page[src..src + n]);
      assert old(attributes[..])[src..src + n] == old(attributes[src..src + n]);
      ZipPut(old(page[..]), old(attributes[..]), dst, old(page[src..src + n]), old(attributes[src..src + n]));
    }

    /** An assignment to cur followed by B(). */
    method SetCursor(c: int)
      requires Formed()
      modifies this`cur
      ensures Valid() && Abs() == LegacyTerminal.Clamp(old(Abs()).(cur := c))
    {
      hide Cells, Saved, RowStart, Holds, AllOfLength, LegacyTerminal.Clamp;
      cur := c;
      assert Abs() == old(Abs()).(cur := c);
      Clamp();
    }

    /** The first half of a turn of the auto-scroll loop: one row up, with B() as in origin mode. */
    method UpIntoRegion()
      requires Formed()
      modifies this`cur, this`originMode
      ensures Formed() && Abs() == ClampToRegion(old(Abs()).(cur := old(cur) - cols))
    {
      hide Cells, Saved, RowStart, Holds, AllOfLength;
      var tmp := originMode;
      originMode := true;
      SetCursor(cur - cols);
      originMode := tmp;
    }

    /** One turn of the auto-scroll loop. */
    method ScrollTurn()
      requires Formed()
      modifies this, page, attributes, sbPage, sbAttributes
      ensures Formed() && Abs() == ScrollUp(ClampToRegion(old(Abs()).(cur := old(cur) - cols)))
      ensures sbuf == old(sbuf) && dead == old(dead)
    {
      hide Abs, Formed, ScrollUp, ClampToRegion;
      UpIntoRegion();
      PageScroll();
    }

    /** The loop `while (cur >= scroll_bottom * cols)` of page_append. */
    method AutoScroll()
      requires Formed() && 0 <= cur
      modifies this, page, attributes, sbPage, sbAttributes
      ensures Valid() && Abs() == LegacyTerminal.AutoScroll(old(Abs()))
      ensures sbuf == old(sbuf) && dead == old(dead)
    {
      hide Cells, Saved, RowStart, Holds, AllOfLength, ScrollUp, ScrollbackAgrees, ClampToRegion,
           LegacyTerminal.AutoScroll;
      RegionOffsets();
      RegionInPage(Abs());
      while cur >= scrollBottom * cols
        invariant Formed() && 0 <= cur
        invariant LegacyTerminal.AutoScroll(Abs()) == LegacyTerminal.AutoScroll(old(Abs()))
        invariant scrollTop == old(scrollTop) && scrollBottom == old(scrollBottom)
        invariant sbuf == old(sbuf) && dead == old(dead)
        decreases cur
      {
        AutoScrollUnrolled(Abs());
        ScrollTurn();
      }
      AutoScrollStops(Abs());
    }

    /** cur % cols */
    function Column(): (curcol: nat)
      requires Valid()
      reads this, page, attributes, sbPage, sbAttributes
      ensures curcol == CurCol(Abs())
    {
      RowColAreDivMod(cur, cols);
      cur % cols
    }

    /** CSI A. */
    method CursorUp(a: nat)
      requires Valid()
      modifies this`cur
      ensures Valid() && Abs() == Up(old(Abs()), a)
    {
      hide Abs, Formed, CurCol, Column, Offset, RowStart, AllOfLength;
      Fields();
      var c := cur - Offset(if a == 0 then 1 else a, cols);
      Place(if c < 0 then Column() else c);
      Fields();
    }

    /** CSI B. */
    method CursorDown(a: nat)
      requires Valid()
      modifies this`cur
      ensures Valid() && Abs() == Down(old(Abs()), a)
    {
      hide Abs, Formed, CurCol, Column, Offset, RowStart, AllOfLength, Down;
      Fields();
      DownIs(Abs(), a);
      FirstRowInPage();
      var c := cur + Offset(if a == 0 then 1 else a, cols);
      Place(if c >= pagelen then pagelen - cols + Column() else c);
      Fields();
    }

    /** An assignment to cur without B(). */
    method Place(c: int)
      requires Formed()
      modifies this`cur
      ensures Formed() && Abs() == old(Abs()).(cur := c)
    {
      hide Cells, Saved, RowStart, Holds, AllOfLength;
      cur := c;
    }

    /** CSI C. */
    method CursorForward(a: nat)
      requires Valid()
      modifies this`cur
      ensures Valid() && Abs() == Forward(old(Abs()), a)
    {
      hide Abs, Formed, CurCol, Column, RowStart, AllOfLength, LegacyTerminal.Clamp;
      Fields();
      var curcol, a1 := Column(), a;
      if a1 == 0 {
        a1 := 1;
      }
      if a1 >= cols - curcol {
        a1 := cols - curcol - 1;
      }
      SetCursor(cur + a1);
    }

    /** CSI D. */
    method CursorBack(a: nat)
      requires Valid()
      modifies this`cur
      ensures Valid() && Abs() == Back(old(Abs()), a)
    {
      hide Abs, Formed, CurCol, Column, RowStart, AllOfLength, LegacyTerminal.Clamp, Back;
      Fields();
      BackIs(Abs(), a);
      var curcol, a1 := Column(), a;
      if a1 == 0 {
        a1 := 1;
      }
      if a1 > curcol {
        a1 := curcol;
      }
      SetCursor(cur - a1);
    }

    /** CSI G and `. */
    method CursorToColumn(a: nat)
      requires Valid()
      modifies this`cur
      ensures Valid() && Abs() == ToColumn(old(Abs()), a)
    {
      hide Abs, Formed, CurCol, Column, RowStart, AllOfLength, LegacyTerminal.Clamp;
      Fields();
      var a1 := if a > cols then cols else a;
      SetCursor(cur + (a1 - 1) - Column());
    }

    /** Naming a row outside the scroll region resets the region. */
    method ResetRegionFor(y: int)
      requires Valid()
      modifies this`scrollTop, this`scrollBottom
      ensures Valid() && Abs() == RegionFor(old(Abs()), y)
    {
      hide Cells, Saved, RowStart, Holds, AllOfLength;
      if y < scrollTop || y >= scrollBottom {
        scrollTop := 0;
        scrollBottom := rows;
      }
    }

    /** CSI d. */
    method CursorToRow(a: nat)
      requires Valid()
      modifies this`cur, this`scrollTop, this`scrollBottom
      ensures Valid() && Abs() == VerticalPosition(old(Abs()), a)
    {
      hide Cells, Saved, Column, Offset, RowStart, Holds, AllOfLength, LegacyTerminal.Clamp;
      var curcol := Column();
      var a1 := if a >= rows then rows else a;
      ResetRegionFor(a1 - 1);
      var start := Offset(a1, cols);
      SetCursor(start - cols + curcol);
    }

    /** CSI H and f. */
    method CursorTo(row: nat, col: nat)
      requires Valid()
      modifies this`cur, this`scrollTop, this`scrollBottom, this`wrapped
      ensures Valid() && Abs() == CursorPosition(old(Abs()), row, col)
    {
      hide Abs, Formed, Offset, RowStart, AllOfLength, LegacyTerminal.Clamp, RegionFor;
      Fields();
      var a1 := if row > rows then rows else if row < 1 then 1 else row;
      if originMode {
        a1 := a1 + scrollTop;
      } else {
        ResetRegionFor(a1 - 1);
      }
      var a2 := if col > cols then cols else if col < 1 then 1 else col;
      ClearWrapped();
      SetCursor(Offset(a1 - 1, cols) + a2 - 1);
    }

    method ClearWrapped()
      requires Formed()
      modifies this`wrapped
      ensures Formed() && Abs() == old(Abs()).(wrapped := false)
    {
      hide Cells, Saved, RowStart, Holds, AllOfLength;
      wrapped := false;
    }

    /** erase called on a range the caller did not check; false when the range leaves the page. */
    method EraseUnchecked(start: int, n: int) returns (ok: bool)
      requires Valid() && 0 <= start && 0 <= n
      modifies page, attributes
      ensures Valid()
      ensures ok == EraseOrOutside(old(Abs()), start, n).Done?
      ensures Abs() == if ok then EraseOrOutside(old(Abs()), start, n).s else old(Abs())
    {
      hide Cells, Saved, Column, Offset, RowStart, Holds, AllOfLength;
      ok := start + n <= pagelen;
      if ok {
        Erase(start, n);
      }
    }

    /** CSI J and K. */
    method EraseCommand(cmd: char, mode: nat) returns (ok: bool)
      requires Valid() && cmd in {'J', 'K'}
      modifies page, attributes
      ensures Valid()
      ensures var r := if cmd == 'J' then EraseDisplay(old(Abs()), mode) else EraseLine(old(Abs()), mode);
              ok == r.Done? && Abs() == if ok then r.s else old(Abs())
    {
      hide Cells, Saved, Column, Offset, RowStart, Holds, AllOfLength, EraseOrOutside;
      var curcol := Column();
      if cmd == 'J' {
        if mode == 1 {
          ok := EraseUnchecked(0, cur + 1);
        } else if mode == 2 {
          ok := EraseUnchecked(0, pagelen);
        } else {
          ok := EraseUnchecked(cur, pagelen - cur);
        }
      } else {
        if mode == 1 {
          ok := EraseUnchecked(cur - curcol, curcol + 1);
        } else if mode == 2 {
          ok := EraseUnchecked(cur - curcol, cols);
        } else {
          ok := EraseUnchecked(cur, cols - curcol);
        }
      }
    }

    /** cur / cols */
    function RowNumber(): (row: nat)
      requires Valid()
      reads this, page, attributes, sbPage, sbAttributes
      ensures row == RowAt(cur, cols)
    {
      RowColAreDivMod(cur, cols);
      cur / cols
    }

    /** The two moves of CSI @, n cells to the right; l cells of the row stay on it. */
    method MoveForInsert(n: nat, l: nat)
      requires Shape() && 0 <= cur && cur + n + l <= pagelen
      modifies page, attributes
      ensures page[..] == MovedBytes(old(page[..]), cur, n, l)
      ensures attributes[..] == MovedAttributes(old(attributes[..]), cur, n, l)
    {
      hide RowStart, Put;
      Memmove(page, cur + n, cur, l);
      assert old(page[..])[cur..cur + l] == old(page[cur..cur + l]);
      MoveAttributesForInsert(n, l);
    }

    /** do_csi moves l attributes from n cells before the cursor; the first n are erased afterwards. */
    method MoveAttributesForInsert(n: nat, l: nat)
      requires Shape() && 0 <= cur && cur + n + l <= pagelen
      modifies attributes
      ensures attributes[..] == MovedAttributes(old(attributes[..]), cur, n, l)
    {
      hide RowStart, Put;
      if l > n {
        Memmove(attributes, cur + n, cur, l - n);
        assert old(attributes[..])[cur..cur + l - n] == old(attributes[cur..cur + l - n]);
      }
    }

    /** CSI @, with n cells to insert. */
    method InsertBlanks(n: nat)
      requires Valid() && cur < pagelen && n <= cols - CurCol(Abs())
      modifies page, attributes
      ensures Valid() && Abs() == WithTail(old(Abs()), InsertCells(Tail(old(Abs())), n, Blank(old(Abs()))))
    {
      hide Saved, RowStart, Holds, AllOfLength, InsertCells, Zip, Put, MovedBytes, MovedAttributes;
      RowAroundCursor(Abs());
      var width := cols - Column();
      InsertMoved(page[..], attributes[..], cur, n, width, Blank(Abs()));
      MoveForInsert(n, width - n);
      Erase(cur, n);
    }

    /** CSI P, with n cells to delete. */
    method DeleteChars(n: nat)
      requires Valid() && cur < pagelen && 0 < n
      modifies page, attributes
      ensures Valid()
      ensures var m := Min(n, cols - CurCol(old(Abs())));
              Abs() == WithTail(old(Abs()), DeleteCells(Tail(old(Abs())), m, Blank(old(Abs()))))
    {
      hide Abs, Formed, RowStart, DeleteCells, Put, Tail, WithTail, CurCol, LegacyTerminal.Erase, Column;
      Fields();
      RowAroundCursor(Abs());
      var curcol := Column();
      DeleteIsMove(Abs(), Min(n, cols - curcol));
      if curcol + n < cols {
        var l := cols - curcol - n;
        MoveCells(cur, cur + n, l);
        Erase(cur + l, n);
      } else {
        Erase(cur, cols - curcol);
      }
    }

    /** CSI @, P and X. */
    method EditCellsCommand(cmd: char, a: nat) returns (ok: bool)
      requires Valid() && cmd in {'@', 'P', 'X'}
      modifies page, attributes
      ensures Valid()
      ensures var r := EditCells(old(Abs()), cmd, a);
              ok == r.Done? && Abs() == if ok then r.s else old(Abs())
    {
      hide Cells, Saved, RowStart, Holds, AllOfLength, DeleteCells, InsertCells, Put, LegacyTerminal.Erase;
      RowAroundCursor(Abs());
      var curcol := Column();
      ok := a == 0 || cur < pagelen;
      if a > 0 && ok {
        var n := if curcol + a > cols then cols - curcol else a;
        if cmd == '@' {
          InsertBlanks(n);
        } else if cmd == 'P' {
          DeleteChars(a);
        } else {
          Erase(cur, n);
        }
      }
    }

    /** The loop of CSI L, with scroll_top at the cursor's row. */
    method InsertLinesLoop(a: nat)
      requires Valid()
      modifies this`scrollTop, page, attributes
      ensures Valid() && Abs() == LegacyTerminal.InsertLines(old(Abs()), a)
    {
      hide Cells, Saved, RowStart, Holds, AllOfLength, ScrollDown;
      var a1 := a;
      while a1 > 0 && scrollTop + 1 < scrollBottom
        invariant Valid() && cur == old(cur)
        invariant LegacyTerminal.InsertLines(Abs(), a1) == LegacyTerminal.InsertLines(old(Abs()), a)
        decreases a1
      {
        PageScrollDown();
        a1 := a1 - 1;
        SetScrollTop(scrollTop + 1);
      }
    }

    method SetScrollTop(row: nat)
      requires Formed() && row < scrollBottom
      modifies this`scrollTop
      ensures Formed() && Abs() == old(Abs()).(top := row)
    {
      hide Cells, Saved, RowStart, Holds, AllOfLength;
      scrollTop := row;
    }

    /** The loop of CSI M. */
    method DeleteLinesLoop(a: nat)
      requires Valid()
      modifies this`top, this`history, page, attributes, sbPage, sbAttributes
      ensures Valid() && Abs() == LegacyTerminal.DeleteLines(old(Abs()), a)
    {
      hide Cells, Saved, RowStart, Holds, AllOfLength, ScrollUp;
      var a1 := a;
      while a1 > 0
        invariant Valid()
        invariant LegacyTerminal.DeleteLines(Abs(), a1) == LegacyTerminal.DeleteLines(old(Abs()), a)
        decreases a1
      {
        PageScroll();
        a1 := a1 - 1;
      }
    }

    /** CSI L and M. */
    method EditLinesCommand(cmd: char, a: nat)
      requires Valid() && cmd in {'L', 'M'}
      modifies this`scrollTop, this`top, this`history, page, attributes, sbPage, sbAttributes
      ensures Valid() && Abs() == EditLines(old(Abs()), cmd, a)
    {
      hide Abs, Formed, RowStart, AllOfLength, LegacyTerminal.InsertLines, LegacyTerminal.DeleteLines, RowNumber,
           Offset, EditLines, RowAt;
      Fields();
      OutsideRegion(Abs(), cmd, a);
      if cur >= Offset(scrollTop, cols) && cur < Offset(scrollBottom, cols) {
        EditLinesIs(Abs(), cmd, a);
        var saveTop := scrollTop;
        SetScrollTop(RowNumber());
        Fields();
        if cmd == 'L' {
          InsertLinesLoop(a);
        } else if scrollTop + 1 < scrollBottom {
          DeleteLinesLoop(a);
        }
        Fields();
        SetScrollTop(saveTop);
      }
    }

    /** CSI ? h and CSI ? l. */
    method DecModeCommand(on: bool, mode: nat)
      requires Valid()
      modifies this, page, attributes
      ensures Valid() && Abs() == DecMode(old(Abs()), on, mode)
    {
      hide Abs, Formed, DecMode, RowStart, AllOfLength, LegacyTerminal.Erase;
      Fields();
      DecModeIs(Abs(), on, mode);
      if mode == 1 {
        SetFlags(on, hidden);
      } else if mode == 3 {
        EraseAll();
      } else if mode == 25 {
        SetFlags(cursorKeys, !on);
      } else if mode == 6 {
        SetOriginMode(on);
      }
    }

    method SetFlags(keys: bool, invisible: bool)
      requires Valid()
      modifies this`cursorKeys, this`hidden
      ensures Valid() && Abs() == old(Abs()).(cursorKeys := keys, hidden := invisible)
    {
      hide Cells, Saved, RowStart, Holds, AllOfLength;
      cursorKeys, hidden := keys, invisible;
    }

    method EraseAll()
      requires Valid()
      modifies this`cur, page, attributes
      ensures Valid() && Abs() == LegacyTerminal.Erase(old(Abs()).(cur := 0), 0, PageLen(old(Abs())))
    {
      hide Cells, Saved, RowStart, Holds, AllOfLength, LegacyTerminal.Erase;
      Fields();
      Place(0);
      Erase(0, pagelen);
    }

    method SetOriginMode(on: bool)
      requires Valid()
      modifies this`originMode, this`cur, this`wrapped
      ensures Valid()
      ensures Abs() == old(Abs()).(originMode := on, wrapped := false,
                                   cur := if on then RowStart(scrollTop, cols) else 0)
    {
      hide Cells, Saved, RowStart, Holds, AllOfLength;
      RegionInPage(Abs());
      originMode := on;
      cur := if on then Offset(scrollTop, cols) else 0;
      ClearWrapped();
    }

    /** CSI m. */
    method SetRenditionCommand(args: Args)
      requires Valid()
      modifies this`curAttr
      ensures Valid() && Abs() == SetRendition(old(Abs()), args)
    {
      hide Cells, Saved, RowStart, Holds, AllOfLength, Renditions;
      curAttr := ApplyRenditions(curAttr,
                                 if args.n == 0 then [0] else if args.n == 1 then [args.a1]
                                 else if args.n == 2 then [args.a1, args.a2] else [args.a1, args.a2, args.a3]);
    }

    /** CSI r. */
    method SetRegionCommand(args: Args)
      requires Valid()
      modifies this`cur, this`scrollTop, this`scrollBottom
      ensures Valid() && Abs() == SetRegion(old(Abs()), args)
    {
      hide Cells, Saved, RowStart, Holds, AllOfLength, LegacyTerminal.Clamp;
      var a1, a2 := args.a1, args.a2;
      if args.n == 0 {
        a1, a2 := 1, rows;
      }
      if a1 >= 1 && a1 < a2 && a2 <= rows {
        scrollTop := a1 - 1;
        scrollBottom := a2;
        assert Abs() == old(Abs()).(top := a1 - 1, bottom := a2);
        SetCursor(Offset(a1 - 1, cols));
      }
    }

    /** The switch of do_csi; false when the command leaves the page. */
    method DoCsi(cmd: char, mark: char, args: Args) returns (ok: bool)
      requires Valid()
      modifies this, page, attributes, sbPage, sbAttributes
      ensures Valid()
      ensures var r := CsiStep(old(Abs()), cmd, mark, args);
              ok == r.Done? && Abs() == if ok then r.s else old(Abs())
    {
      hide Abs, Valid, Up, Down, Forward, Back, ToColumn, VerticalPosition, CursorPosition, EraseDisplay, EraseLine,
           EditCells, EditLines, DecMode, SetRendition, SetRegion, LegacyTerminal.Valid;
      ok := true;
      if cmd == 'A' {
        CursorUp(args.a1);
      } else if cmd == 'B' {
        CursorDown(args.a1);
      } else if cmd == 'C' {
        CursorForward(args.a1);
      } else if cmd == 'D' {
        CursorBack(args.a1);
      } else if cmd in {'G', '`'} {
        CursorToColumn(args.a1);
      } else if cmd == 'd' {
        CursorToRow(args.a1);
      } else if cmd in {'H', 'f'} {
        CursorTo(args.a1, args.a2);
      } else if cmd in {'J', 'K'} {
        ok := EraseCommand(cmd, if args.n == 0 then 0 else args.a1);
      } else if cmd in {'@', 'P', 'X'} {
        ok := EditCellsCommand(cmd, args.a1);
      } else if cmd in {'L', 'M'} {
        EditLinesCommand(cmd, args.a1);
      } else if cmd in {'h', 'l'} && mark == '?' {
        DecModeCommand(cmd == 'h', args.a1);
      } else if cmd == 'm' {
        SetRenditionCommand(args);
      } else if cmd == 'r' {
        SetRegionCommand(args);
      }
    }

    /** A byte, and its attribute where page_append writes one, goes to the cell under the cursor. */
    method WriteCell(c: char, attr: bv8)
      requires Formed() && 0 <= cur < pagelen
      modifies page, attributes
      ensures Formed() && Abs() == old(Abs()).(page := old(Abs()).page[cur := Cell(c, attr)])
    {
      hide Saved, RowStart, Holds, AllOfLength, Zip;
      ZipUpdate(page[..], attributes[..], cur, c, attr);
      page[cur] := c;
      attributes[cur] := attr;
      assert page[..] == old(page[..])[cur := c] && attributes[..] == old(attributes[..])[cur := attr];
    }

    method WriteChar(c: char)
      requires Formed() && 0 <= cur < pagelen
      modifies page, attributes
      ensures Formed() && Abs() == old(Abs()).(page := old(Abs()).page[cur := StoredCell(old(Abs()), c)])
    {
      hide Cells, Saved, RowStart, Holds, AllOfLength;
      assert |SPECIAL_TABLE| == 32;
      if '\U{60}' <= c < '\U{7f}' && dographic && graphics {
        CellAt();
        WriteCell(SPECIAL_TABLE[c as int - 0x60], attributes[cur]);
      } else {
        WriteCell(c, curAttr);
      }
    }

    /** The end of page_append's loop body: a character is stored. */
    method StoreChar(c: char, curcol: nat)
      requires Formed() && 0 <= cur < pagelen
      modifies this`cur, this`wrapped, page, attributes
      ensures Valid() && Abs() == Store(old(Abs()), c, curcol)
    {
      hide Abs, Formed, RowStart, AllOfLength, StoredCell;
      Fields();
      var special := '\U{60}' <= c < '\U{7f}' && dographic && graphics;
      WriteChar(c);
      // page_append resets cur when it is past the page, which LegacyEditing.OverflowUnreachable rules out.
      SetWrapped(curcol == cols - 1 || (special && wrapped), cur + 1);
      Fields();
    }

    lemma CellAt()
      requires Shape() && 0 <= cur < pagelen
      ensures Abs().page[cur] == Cell(page[cur], attributes[cur])
    {
      hide RowStart;
    }

    method SetWrapped(w: bool, c: int)
      requires Formed()
      modifies this`wrapped, this`cur
      ensures Formed() && Abs() == old(Abs()).(wrapped := w, cur := c)
    {
      hide Cells, Saved, RowStart, Holds, AllOfLength;
      wrapped := w;
      cur := c;
    }

    /** CR, TAB and BS. */
    method CursorControl(c: char)
      requires Valid() && c in {CR, TAB, BS}
      modifies this`cur, this`wrapped
      ensures Valid() && Abs() == PlainStep(old(Abs()), c)
    {
      hide Abs, Formed, RowStart, AllOfLength, LegacyTerminal.Clamp, CurCol, Column;
      Fields();
      var curcol := Column();
      if c == CR {
        var x := cur - curcol - if wrapped then cols else 0;
        ClearWrapped();
        SetCursor(x);
      } else if c == TAB {
        SetCursor(if curcol >= cols - 8 then cur + (cols - 1 - curcol) else cur + (8 - curcol % 8));
      } else {
        SetCursor(if curcol > 0 then cur - 1 else cur);
      }
    }

    /** LF, from wherever NEL or LF have put the cursor. */
    method LineFeedAndScroll()
      requires Valid()
      modifies this, page, attributes, sbPage, sbAttributes
      ensures Valid() && Abs() == NextLine(old(Abs()))
    {
      hide Cells, Saved, RowStart, Holds, AllOfLength, LegacyTerminal.AutoScroll;
      if wrapped {
        SetWrapped(false, cur);
      } else {
        SetWrapped(false, cur + cols);
      }
      AutoScroll();
    }

    /** A character that is stored on the page. */
    method StoreNextChar(c: char)
      requires Valid()
      modifies this, page, attributes, sbPage, sbAttributes
      ensures Valid() && Abs() == StoreNext(old(Abs()), c)
    {
      hide Cells, Saved, RowStart, Holds, AllOfLength, LegacyTerminal.AutoScroll, Store, Column;
      var curcol := Column();
      AutoScroll();
      RegionInPage(Abs());
      StoreChar(c, curcol);
    }

    method SetGraphics(g: bool, d: bool)
      requires Valid()
      modifies this`graphics, this`dographic
      ensures Valid() && Abs() == old(Abs()).(graphics := g, dographic := d)
    {
      hide Cells, Saved, RowStart, Holds, AllOfLength;
      graphics := g;
      dographic := d;
    }

    /** The switch of page_append for a character other than ESC. */
    method PlainChar(c: char)
      requires Valid()
      modifies this, page, attributes, sbPage, sbAttributes
      ensures Valid() && Abs() == PlainStep(old(Abs()), c)
    {
      hide Cells, Saved, WellFormed, Holds, NextLine, StoreNext, CarriageReturn, Tab, Backspace;
      if c in {CR, TAB, BS} {
        CursorControl(c);
      } else if c == SO {
        SetGraphics(graphics, true);
      } else if c == SI {
        SetGraphics(graphics, false);
      } else if c == LF {
        LineFeedAndScroll();
      } else if c != BEL {
        StoreNextChar(c);
      }
    }

    /** ESC M */
    method ReverseIndexChar()
      requires Valid()
      modifies this`cur, this`wrapped, page, attributes
      ensures Valid() && Abs() == ReverseIndex(old(Abs()))
    {
      hide Cells, Saved, RowStart, Holds, AllOfLength, ScrollDown, LegacyTerminal.Clamp, Offset;
      var x := cur - cols;
      if x < Offset(scrollTop, cols) {
        x := x + cols;
        PageScrollDown();
      }
      ClearWrapped();
      SetCursor(x);
    }

    /** ESC c */
    method Reset()
      requires Valid()
      modifies this`cur, this`top, this`history
      ensures Valid() && Abs() == old(Abs()).(cur := 0, history := [])
    {
      hide Cells, Saved, RowStart;
      HeldNothing(Saved(), sbLines, cols, []);
      cur := 0;
      top := 0;
      history := [];
    }

    /** ESC followed by any other character. */
    method EscapeChar(c: char)
      requires Valid()
      modifies this, page, attributes, sbPage, sbAttributes
      ensures Valid() && Abs() == EscapeStep(old(Abs()), c)
    {
      hide Cells, Saved, RowStart, Holds, AllOfLength, NextLine, ReverseIndex, LegacyTerminal.Clamp, Column, CurCol;
      RowAroundCursor(Abs());
      if c == 'c' {
        Reset();
      } else if c == 'D' {
        SetCursor(cur + cols);
      } else if c == 'E' {
        SetWrapped(wrapped, cur - Column());
        LineFeedAndScroll();
      } else if c == 'M' {
        ReverseIndexChar();
      }
    }

    /** ESC ( and ESC ) */
    method CharsetChar(bank: char, c: char)
      requires Valid()
      modifies this`graphics, this`dographic
      ensures Valid() && Abs() == CharsetStep(old(Abs()), bank, c)
    {
      if c == '0' {
        SetGraphics(graphics || bank == '(', true);
      } else if c == 'B' {
        SetGraphics(false, false);
      }
    }

    /** ESC # */
    method DecChar(c: char)
      requires Valid()
      modifies page, attributes
      ensures Valid() && Abs() == DecStep(old(Abs()), c)
    {
      hide Saved, RowStart, Holds, AllOfLength;
      if c == '8' {
        Memset(page, 0, 'E', pagelen);
        Memset(attributes, 0, curAttr, pagelen);
        assert Cells() == Fill(pagelen, Cell('E', curAttr));
      }
    }

    /** One complete unit of input; false when it leaves the page. */
    method Execute(t: Token) returns (ok: bool)
      requires Valid()
      modifies this, page, attributes, sbPage, sbAttributes
      ensures Valid()
      ensures ok == Step(old(Abs()), t).Done? && Abs() == if ok then Step(old(Abs()), t).s else old(Abs())
    {
      hide Abs, Valid, PlainStep, EscapeStep, CharsetStep, DecStep, CsiStep, LegacyTerminal.Valid;
      ok := true;
      match t
      case Plain(c) => PlainChar(c);
      case Csi(cmd, mark, params) => ok := DoCsi(cmd, mark, ParseArgs(params));
      case Charset(bank, c) => CharsetChar(bank, c);
      case Dec(c) => DecChar(c);
      case Escape(c) => EscapeChar(c);
    }

    /** page_append */
    method PageAppend(buf: string) returns (exit: Exit)
      requires Valid()
      modifies this, page, attributes, sbPage, sbAttributes
      ensures Valid()
      ensures match Append(old(Abs()), buf)
              case Stopped(s, rest) => exit == Unused(rest) && Abs() == s
              case OutsidePage => exit == LeftPage
              case PastBuffer => exit == LeftBuffer
    {
      hide Abs, Valid, Step, Lex, LegacyTerminal.Valid;
      var s := CString(buf);
      while s != []
        invariant Valid()
        invariant Pass(Abs(), s) == Append(old(Abs()), buf)
        decreases |s|
      {
        var lexed := NextToken(s);
        match lexed
        case Incomplete => return Unused(s);
        case PastEnd => return LeftBuffer;
        case Complete(t, len) =>
          var ok := Execute(t);
          if !ok {
            return LeftPage;
          }
          s := s[len..];
      }
      return Unused([]);
    }

    /** term_screen, for the bytes that read() returned; read() gets the space that is left in sbuf. */
    method TermScreen(chunk: string) returns (exit: Exit)
      requires Valid() && NUL !in sbuf && |sbuf| + |chunk| <= BUFFER_LIMIT
      modifies this, page, attributes, sbPage, sbAttributes
      ensures Valid() && NUL !in sbuf && |sbuf| <= BUFFER_LIMIT
      ensures chunk == [] ==> dead && Abs() == old(Abs()) && sbuf == old(sbuf)
      ensures chunk != [] ==>
        match Append(old(Abs()), old(sbuf) + chunk)
        case Stopped(s, rest) => exit == Unused(rest) && Abs() == s && sbuf == rest && dead == old(dead)
        case OutsidePage => exit == LeftPage
        case PastBuffer => exit == LeftBuffer
    {
      hide Pass, Abs, Formed, Valid, CString;
      if chunk == [] {
        SetInput(sbuf, true);
        return Unused(sbuf);
      }
      var wasDead := dead;
      ghost var before, buf := Abs(), sbuf + chunk;
      exit := PageAppend(sbuf + chunk);
      if exit.Unused? {
        RestIsSuffix(before, CString(buf));
        SetInput(exit.rest, wasDead);
      } else {
        SetInput([], wasDead);
      }
    }

    /**
      Every read of the session's life: state and leftover are those of the reads in turn. From an empty
      buffer and without NUL and ESC #, they are those of one pass over the whole stream.
      */
    method ReadAll(chunks: seq<string>) returns (exit: Exit)
      requires Valid() && NUL !in sbuf && |sbuf| <= BUFFER_LIMIT && Fits(Abs(), sbuf, chunks)
      modifies this, page, attributes, sbPage, sbAttributes
      ensures Valid()
      ensures match Reads(old(Abs()), old(sbuf), chunks)
              case Stopped(s, rest) => exit == Unused(rest) && Abs() == s && sbuf == rest && dead == old(dead)
              case OutsidePage => exit == LeftPage
              case PastBuffer => exit == LeftBuffer
      ensures old(sbuf) == "" && NUL !in Concat(chunks) && NoEscHash(Concat(chunks)) ==>
        match Append(old(Abs()), Concat(chunks))
        case Stopped(s, rest) => exit == Unused(rest) && Abs() == s && sbuf == rest && dead == old(dead)
        case OutsidePage => exit == LeftPage
        case PastBuffer => false
    {
      hide Append, Abs, Formed, Valid, NoEscHash, LegacyTerminal.Valid;
      if sbuf == "" && NUL !in Concat(chunks) && NoEscHash(Concat(chunks)) {
        ReadsOfText(Abs(), chunks);
      }
      assert chunks[0..] == chunks;
      for i := 0 to |chunks|
        invariant Valid() && NUL !in sbuf && |sbuf| <= BUFFER_LIMIT && dead == old(dead)
        invariant Fits(Abs(), sbuf, chunks[i..])
        invariant Reads(Abs(), sbuf, chunks[i..]) == Reads(old(Abs()), old(sbuf), chunks)
      {
        assert chunks[i..][1..] == chunks[i + 1..];
        exit := TermScreen(chunks[i]);
        if !exit.Unused? {
          return;
        }
      }
      return Unused(sbuf);
    }

    method SetInput(rest: string, isDead: bool)
      requires Valid()
      modifies this`sbuf, this`dead
      ensures Valid() && Abs() == old(Abs()) && sbuf == rest && dead == isDead
    {
      hide Cells, Saved, Holds, AllOfLength, RowStart;
      sbuf, dead := rest, isDead;
    }

    /** print_buf: the cells it draws, one for every byte. */
    method PrintBuf(buf: array<char>, attr: array<bv8>, from: nat, n: nat) returns (cells: seq<Cell>)
      requires buf.Length == attr.Length && from + n <= buf.Length
      ensures cells == Zip(buf[..], attr[..])[from..from + n]
    {
      cells := [];
      for i := 0 to n
        invariant cells == Zip(buf[..], attr[..])[from..from + i]
      {
        cells := cells + [Cell(buf[from + i], attr[from + i])];
      }
    }

    /**
      process_screen of launchpad.c: the cells drawn for scrollback position sbPos, the position after
      clamping, and the index of the cell drawn as cursor (-1 for none).
      */
    method ProcessScreen(sbPos: nat) returns (view: seq<Cell>, pos: nat, cursor: int)
      requires Valid()
      ensures pos == (if sbPos > top then top else sbPos) <= |history|
      ensures view == Window(history, Abs().page, rows, cols, pos) && |view| == pagelen
      ensures cursor == if hidden || cur + RowStart(pos, cols) >= pagelen then -1 else cur + RowStart(pos, cols)
      ensures cursor >= 0 ==> cur < pagelen && view[cursor] == Abs().page[cur]
    {
      hide RowStart, Holds, AllOfLength, Cells, Saved, Held, Offset, Drawn, Window;
      HoldsTop(Saved(), sbLines, cols, top, history);
      pos := if sbPos > top then top else sbPos;
      DrawnIsWindow(Saved(), sbLines, Cells(), rows, cols, top, history, pos);
      view, cursor := Draw(pos);
    }

    method Draw(pos: nat) returns (view: seq<Cell>, cursor: int)
      requires Valid() && pos <= sbLines
      ensures view == Drawn(Saved(), sbLines, Cells(), rows, cols, pos)
      ensures cursor == if hidden || cur + RowStart(pos, cols) >= pagelen then -1 else cur + RowStart(pos, cols)
      ensures cursor >= 0 ==> cur < pagelen && cursor < |view| && view[cursor] == Cells()[cur]
    {
      hide RowStart, Holds, AllOfLength, Zip, Offset, WellFormed, LegacyTerminal.Valid;
      var r := if pos >= rows then rows else pos;
      RowStartAdd(sbLines - pos, pos, cols);
      RowStartAdd(r, pos - r, cols);
      RowStartAdd(r, rows - r, cols);
      FirstRow(cols);
      view := [];
      if pos > 0 {
        view := PrintBuf(sbPage, sbAttributes, Offset(sbLines - pos, cols), Offset(r, cols));
      }
      cursor := -1;
      if r < rows {
        var rest := PrintBuf(page, attributes, 0, Offset(rows - r, cols));
        if !hidden && cur < |rest| {
          cursor := |view| + cur;
        }
        view := view + rest;
      }
    }
  }
}
