/** The incremental parser of the modern engine (terminal/ansi_parser.hpp), a byte-at-a-time automaton. */
module AnsiParser {
  import opened Decimal
  import opened Options
  import opened Strings
  import opened ControlCharacters
  import opened Parameters

  datatype Mode = Ground | Escape | Csi

  datatype Parser = Parser(mode: Mode, params: string)

  /** The calls the parser makes: on_print_char, on_cursor_move and on_erase_display. */
  datatype Action = Print(c: char) | CursorMove(row: nat, col: nat) | EraseDisplay(mode: nat)

  /** The first parameter execute_csi reads, 0 when there is none. */
  function Param1(params: string): nat {
    Atoi(params[..Find(params, ';')])
  }

  /** The second one. */
  function Param2(params: string): nat {
    var sep := Find(params, ';');
    if sep < |params| then Atoi(params[sep + 1..]) else 0
  }

  /** execute_csi */
  function ExecuteCsi(params: string, cmd: char): seq<Action> {
    if cmd == 'H' || cmd == 'f' then [CursorMove(Param1(params), Param2(params))]
    else if cmd == 'J' then [EraseDisplay(Param1(params))]
    else []
  }

  function FeedChar(p: Parser, c: char): (Parser, seq<Action>) {
    match p.mode
    case Ground => if c == ESC then (p.(mode := Escape), []) else (p, [Print(c)])
    case Escape => if c == '[' then (Parser(Csi, ""), []) else (p.(mode := Ground), [])
    case Csi =>
      if IsParam(c) then (p.(params := p.params + [c]), [])
      else (Parser(Ground, ""), ExecuteCsi(p.params, c))
  }

  /** feed */
  function Feed(p: Parser, input: string): (Parser, seq<Action>)
    decreases |input|
  {
    if input == [] then (p, [])
    else
      var (p1, first) := FeedChar(p, input[0]);
      var (p2, rest) := Feed(p1, input[1..]);
      (p2, first + rest)
  }

  /** Feeding two chunks is feeding their concatenation. */
  lemma {:induction false} FeedConcat(p: Parser, a: string, b: string)
    ensures var (p1, x) := Feed(p, a);
            var (p2, y) := Feed(p1, b);
            Feed(p, a + b) == (p2, x + y)
    decreases |a|
  {
    hide FeedChar;
    if a == [] {
      assert a + b == b && [] + Feed(p, b).1 == Feed(p, b).1;
    } else {
      assert (a + b)[1..] == a[1..] + b;
      FeedConcat(FeedChar(p, a[0]).0, a[1..], b);
      var (p1, x) := Feed(FeedChar(p, a[0]).0, a[1..]);
      var (p2, y) := Feed(p1, b);
      assert FeedChar(p, a[0]).1 + (x + y) == FeedChar(p, a[0]).1 + x + y;
    }
  }

  function FeedAll(p: Parser, chunks: seq<string>): (Parser, seq<Action>)
    decreases |chunks|
  {
    if chunks == [] then (p, [])
    else
      var (p1, x) := Feed(p, chunks[0]);
      var (p2, y) := FeedAll(p1, chunks[1..]);
      (p2, x + y)
  }

  /** How the input is cut into chunks makes no difference. */
  lemma {:induction false} ChunksDoNotMatter(p: Parser, chunks: seq<string>)
    ensures FeedAll(p, chunks) == Feed(p, Concat(chunks))
    decreases |chunks|
  {
    if chunks != [] {
      FeedConcat(p, chunks[0], Concat(chunks[1..]));
      ChunksDoNotMatter(Feed(p, chunks[0]).0, chunks[1..]);
    }
  }

  /** What a program sends: text without ESC, control sequences with any fields, and two-byte escapes. */
  datatype Item =
    | Text(s: string)
    | Control(fs: seq<Option<nat>>, final: char)
    | Escaped(c: char)

  function Cup(row: nat, col: nat): Item { Control([Some(row), Some(col)], 'H') }

  function Ed(mode: nat): Item { Control([Some(mode)], 'J') }

  predicate Sendable(item: Item) {
    match item
    case Text(s) => ESC !in s
    case Control(_, final) => !IsParam(final)
    case Escaped(c) => c != '['
  }

  /** The bytes of an item (ECMA-48 section 5.4; CUP is section 8.3.21, ED section 8.3.39). */
  function Encode(item: Item): string {
    match item
    case Text(s) => s
    case Control(fs, final) => [ESC, '['] + Fields(fs) + [final]
    case Escaped(c) => [ESC, c]
  }

  function EncodeAll(items: seq<Item>): string {
    if items == [] then "" else Encode(items[0]) + EncodeAll(items[1..])
  }

  function Prints(s: string): seq<Action> {
    seq(|s|, i requires 0 <= i < |s| => Print(s[i]))
  }

  /** The number in a field, 0 when it is empty or missing. */
  function FieldAt(fs: seq<Option<nat>>, i: nat): nat { if i < |fs| && fs[i].Some? then fs[i].value else 0 }

  /** CUP and HVP move the cursor, ED erases; every other sequence and escape is ignored. */
  function Meaning(item: Item): seq<Action> {
    match item
    case Text(s) => Prints(s)
    case Control(fs, 'H') => [CursorMove(FieldAt(fs, 0), FieldAt(fs, 1))]
    case Control(fs, 'f') => [CursorMove(FieldAt(fs, 0), FieldAt(fs, 1))]
    case Control(fs, 'J') => [EraseDisplay(FieldAt(fs, 0))]
    case Control(_, _) => []
    case Escaped(_) => []
  }

  function MeaningAll(items: seq<Item>): seq<Action> {
    if items == [] then [] else Meaning(items[0]) + MeaningAll(items[1..])
  }

  lemma {:induction false} FeedText(params: string, s: string)
    requires ESC !in s
    ensures Feed(Parser(Ground, params), s) == (Parser(Ground, params), Prints(s))
    decreases |s|
  {
    if s != [] {
      assert s == [s[0]] + s[1..];
      FeedText(params, s[1..]);
      assert Prints(s) == [Print(s[0])] + Prints(s[1..]);
    } else {
      assert Prints(s) == [];
    }
  }

  /** Parameter bytes only collect. */
  lemma {:induction false} FeedParams(before: string, s: string)
    requires IsParams(s)
    ensures Feed(Parser(Csi, before), s) == (Parser(Csi, before + s), [])
    decreases |s|
  {
    if s != [] {
      FeedParams(before + [s[0]], s[1..]);
      assert before + [s[0]] + s[1..] == before + s;
      var none: seq<Action> := [];
      assert none + none == none;
    } else {
      assert before + s == before;
    }
  }

  /** A whole control sequence: its parameters are executed and the parser is back at Ground. */
  lemma FeedControl(params: string, s: string, cmd: char)
    requires IsParams(s) && !IsParam(cmd)
    ensures Feed(Parser(Ground, params), [ESC, '['] + s + [cmd]) == (Parser(Ground, ""), ExecuteCsi(s, cmd))
  {
    hide ExecuteCsi;
    var p := Parser(Ground, params);
    FeedTwo(p, ESC, '[');
    FeedConcat(p, [ESC, '['], s);
    FeedParams("", s);
    var none: seq<Action> := [];
    assert "" + s == s && none + none == none;
    FeedConcat(p, [ESC, '['] + s, [cmd]);
    FeedOne(Parser(Csi, s), cmd);
    assert none + ExecuteCsi(s, cmd) == ExecuteCsi(s, cmd);
  }

  lemma FeedOne(p: Parser, c: char)
    ensures Feed(p, [c]) == FeedChar(p, c)
  {
    hide FeedChar;
    assert [c][1..] == [];
    assert FeedChar(p, c).1 + [] == FeedChar(p, c).1;
  }

  lemma FeedTwo(p: Parser, c: char, d: char)
    ensures var (p1, x) := FeedChar(p, c);
            var (p2, y) := FeedChar(p1, d);
            Feed(p, [c, d]) == (p2, x + y)
  {
    hide FeedChar;
    FeedConcat(p, [c], [d]);
    FeedOne(p, c);
    FeedOne(FeedChar(p, c).0, d);
    assert [c] + [d] == [c, d];
  }

  /** The parameters execute_csi reads are the first two fields. */
  lemma ParamsOfFields(fs: seq<Option<nat>>)
    ensures Param1(Fields(fs)) == FieldAt(fs, 0) && Param2(Fields(fs)) == FieldAt(fs, 1)
  {
    hide Fields, AllDigits, Find, Atoi;
    var s, f := Fields(fs), Field(First(fs));
    FieldsSplit(fs);
    SliceSplit(s, 0, f, AfterField(fs));
    assert s[0..] == s && s[..|f|] == f;
    FieldHasNoSeparator(fs);
    AtoiOfFields([First(fs)]);
    FieldsSplit([First(fs)]);
    assert f + "" == f;
    if |fs| > 1 {
      SliceSplit(s, |f|, ";", Fields(fs[1..]));
      AtoiOfFields(fs[1..]);
    }
  }

  /** The first separator ends the first field. */
  lemma FieldHasNoSeparator(fs: seq<Option<nat>>)
    ensures Find(Fields(fs), ';') == |Field(First(fs))|
  {
    hide Fields, Field;
    var s, f := Fields(fs), Field(First(fs));
    FieldsSplit(fs);
    assert forall k :: 0 <= k < |f| ==> s[k] == f[k] && IsDigit(f[k]);
    assert |f| < |s| ==> s[|f|] == AfterField(fs)[0] == ';';
  }

  /** atoi reads the first field. */
  lemma AtoiOfFields(fs: seq<Option<nat>>)
    ensures Atoi(Fields(fs)) == FieldAt(fs, 0)
  {
    hide Fields, DigitsEnd, Value;
    var s := Fields(fs);
    assert s[0..] == s;
    ReadField(s, 0, fs);
    NoDigits();
  }

  lemma NoDigits()
    ensures Value("") == 0
  {
  }

  /** One item decodes to its meaning. */
  lemma FeedItem(params: string, item: Item)
    requires Sendable(item)
    ensures var (p, actions) := Feed(Parser(Ground, params), Encode(item));
            p.mode == Ground && actions == Meaning(item)
  {
    hide Fields, Feed, Param1, Param2;
    match item
    case Text(s) => FeedText(params, s);
    case Control(fs, final) =>
      FeedControl(params, Fields(fs), final);
      ParamsOfFields(fs);
    case Escaped(c) => FeedTwo(Parser(Ground, params), ESC, c);
  }

  /** The parser undoes the encoder: any items, cut into chunks anywhere, decode to their meaning. */
  lemma ParserUndoesEncoder(params: string, items: seq<Item>, chunks: seq<string>)
    requires forall item :: item in items ==> Sendable(item)
    requires Concat(chunks) == EncodeAll(items)
    ensures var (p, actions) := FeedAll(Parser(Ground, params), chunks);
            p.mode == Ground && actions == MeaningAll(items)
  {
    ChunksDoNotMatter(Parser(Ground, params), chunks);
    FeedItems(params, items);
  }

  lemma {:induction false} FeedItems(params: string, items: seq<Item>)
    requires forall item :: item in items ==> Sendable(item)
    ensures var (p, actions) := Feed(Parser(Ground, params), EncodeAll(items));
            p.mode == Ground && actions == MeaningAll(items)
    decreases |items|
  {
    hide Encode, Meaning;
    if items != [] {
      FeedItem(params, items[0]);
      var p1 := Feed(Parser(Ground, params), Encode(items[0])).0;
      FeedItems(p1.params, items[1..]);
      FeedConcat(Parser(Ground, params), Encode(items[0]), EncodeAll(items[1..]));
    }
  }

  /** A private mark ends a control sequence, so what follows it is printed: ESC [ ? 2 5 h shows 25h. */
  lemma PrivateModePrints(params: string, s: string)
    requires ESC !in s
    ensures var (p, actions) := Feed(Parser(Ground, params), [ESC, '[', '?'] + s);
            p.mode == Ground && actions == Prints(s)
  {
    hide Feed;
    var items := [Control([], '?'), Text(s)];
    assert items[1..] == [Text(s)] && items[1..][1..] == [];
    assert Encode(items[0]) == [ESC, '[', '?'] && EncodeAll(items[1..]) == s + "" == s;
    assert MeaningAll(items) == [] + MeaningAll(items[1..]) && MeaningAll(items[1..]) == Prints(s) + [];
    FeedItems(params, items);
  }
}
