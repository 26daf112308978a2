/**
  INI text (config/config.hpp): what a text says, line by line, and that printed text says what was printed.
  A line is a header, an entry with blanks and a comment around it, a note, or something else, which says
  nothing.
  */
module IniText {
  import opened Strings

  datatype Entry = Entry(key: string, value: string)

  datatype Section = Section(name: string, entries: seq<Entry>)

  /** std::isspace */
  predicate IsSpace(c: char) { c == ' ' || '\t' <= c <= '\r' }

  lemma SpacesAre(c: char)
    ensures IsSpace(c) <==> c as int in {9, 10, 11, 12, 13, 32}
  {
  }

  predicate AllSpace(s: string) { forall i :: 0 <= i < |s| ==> IsSpace(s[i]) }

  predicate Trimmed(s: string) { s == "" || (!IsSpace(s[0]) && !IsSpace(s[|s| - 1])) }

  function TrimStart(s: string): (t: string)
    ensures |t| <= |s| && (t != "" ==> !IsSpace(t[0]))
    ensures s == "" || !IsSpace(s[0]) ==> t == s
  {
    if s != "" && IsSpace(s[0]) then TrimStart(s[1..]) else s
  }

  function TrimEnd(s: string): (t: string)
    ensures t <= s && (t != "" ==> !IsSpace(t[|t| - 1]))
    ensures s == "" || !IsSpace(s[|s| - 1]) ==> t == s
  {
    if s != "" && IsSpace(s[|s| - 1]) then TrimEnd(s[..|s| - 1]) else s
  }

  function Trim(s: string): (t: string)
    ensures Trimmed(t)
  {
    TrimEnd(TrimStart(s))
  }

  /** The value before an inline comment: find_first_of(";#"). */
  function BeforeComment(v: string): (r: string)
    ensures r <= v
  {
    if v == "" || v[0] == ';' || v[0] == '#' then "" else [v[0]] + BeforeComment(v[1..])
  }

  predicate Ignored(line: string) { line == "" || line[0] == '#' || line[0] == ';' }

  predicate IsHeader(line: string) { line != "" && line[0] == '[' && line[|line| - 1] == ']' }

  /** An entry goes to the last section; before the first section there is none to go to. */
  function AddEntry(sections: seq<Section>, e: Entry): seq<Section> {
    if sections == [] then sections
    else
      var last := sections[|sections| - 1];
      sections[|sections| - 1 := last.(entries := last.entries + [e])]
  }

  /** What load_text does with a trimmed line. */
  function AddTrimmed(sections: seq<Section>, line: string): seq<Section> {
    if Ignored(line) then sections
    else if IsHeader(line) then sections + [Section(line[1..|line| - 1], [])]
    else
      var eq := Find(line, '=');
      if eq == |line| then sections
      else AddEntry(sections, Entry(Trim(line[..eq]), Trim(BeforeComment(line[eq + 1..]))))
  }

  function AddLine(sections: seq<Section>, line: string): seq<Section> {
    AddTrimmed(sections, Trim(line))
  }

  /** load_text, from the sections already read. */
  function LoadFrom(sections: seq<Section>, text: string): seq<Section>
    decreases |text|
  {
    if text == "" then sections
    else LoadFrom(AddLine(sections, text[..Find(text, '\n')]), AfterLine(text))
  }

  // Printing.

  /** A line of a file, with the blanks and comments it may carry. */
  datatype Line =
    | Note(before: string, comment: string)
    | Header(before: string, name: string, after: string)
    | Pair(before: string, key: string, beforeEq: string, afterEq: string, value: string, after: string,
           comment: string)
    | Other(before: string, text: string, after: string)

  predicate IsComment(s: string) { s == "" || s[0] == ';' || s[0] == '#' }

  /**
    Keys and values are trimmed and free of the characters reserved at their place; names are any text. No line
    holds a line break. Any other text without an equals sign that is no header says nothing.
    */
  predicate Printable(l: Line) {
    && '\n' !in PrintLine(l)
    && match l
    case Note(before, comment) => AllSpace(before) && IsComment(comment)
    case Header(before, name, after) => AllSpace(before) && AllSpace(after)
    case Pair(before, key, beforeEq, afterEq, value, after, comment) =>
      && AllSpace(before) && AllSpace(beforeEq) && AllSpace(afterEq) && AllSpace(after) && IsComment(comment)
      && Trimmed(key) && '=' !in key && (key == "" || (key[0] != '[' && key[0] != ';' && key[0] != '#'))
      && Trimmed(value) && ';' !in value && '#' !in value
    case Other(before, text, after) =>
      && AllSpace(before) && AllSpace(after) && Trimmed(text) && '=' !in text
      && (text != "" ==> text[0] != '[' || text[|text| - 1] != ']')
  }

  function PrintLine(l: Line): string {
    match l
    case Note(before, comment) => before + comment
    case Header(before, name, after) => before + ("[" + name + "]") + after
    case Pair(before, key, beforeEq, afterEq, value, after, comment) =>
      (before + key + beforeEq) + "=" + ((afterEq + value + after) + comment)
    case Other(before, text, after) => before + text + after
  }

  function PrintLines(lines: seq<Line>): string {
    if lines == [] then "" else PrintLine(lines[0]) + "\n" + PrintLines(lines[1..])
  }

  /** What a line says. */
  function Say(sections: seq<Section>, l: Line): seq<Section> {
    match l
    case Note(_, _) => sections
    case Header(_, name, _) => sections + [Section(name, [])]
    case Pair(_, key, _, _, value, _, _) => AddEntry(sections, Entry(key, value))
    case Other(_, _, _) => sections
  }

  function SayAll(sections: seq<Section>, lines: seq<Line>): seq<Section>
    decreases |lines|
  {
    if lines == [] then sections else SayAll(Say(sections, lines[0]), lines[1..])
  }

  // Trimming.

  lemma {:induction false} TrimStartOf(p: string, s: string)
    requires AllSpace(p)
    ensures TrimStart(p + s) == TrimStart(s)
  {
    if p == "" {
      assert p + s == s;
    } else {
      assert (p + s)[1..] == p[1..] + s;
      TrimStartOf(p[1..], s);
    }
  }

  lemma {:induction false} TrimEndOf(s: string, q: string)
    requires AllSpace(q)
    ensures TrimEnd(s + q) == TrimEnd(s)
    decreases |q|
  {
    if q == "" {
      assert s + q == s;
    } else {
      assert (s + q)[..|s + q| - 1] == s + q[..|q| - 1];
      TrimEndOf(s, q[..|q| - 1]);
    }
  }

  lemma TrimBlank(p: string)
    requires AllSpace(p)
    ensures TrimStart(p) == "" && TrimEnd(p) == ""
  {
    assert p + "" == p && "" + p == p;
    TrimStartOf(p, "");
    TrimEndOf("", p);
  }

  lemma TrimBefore(p: string, s: string)
    requires AllSpace(p) && Trimmed(s)
    ensures TrimStart(p + s) == s && TrimEnd(s) == s
  {
    hide TrimStart, TrimEnd, AllSpace;
    TrimStartOf(p, s);
  }

  lemma TrimAfter(s: string, q: string)
    requires AllSpace(q) && Trimmed(s)
    ensures TrimStart(s + q) == (if s == "" then "" else s + q) && TrimEnd(s + q) == s
  {
    hide AllSpace;
    TrimEndOf(s, q);
    if s == "" {
      assert s + q == q;
      TrimBlank(q);
    } else {
      assert (s + q)[0] == s[0];
    }
  }

  /** Blanks around a trimmed text go, the text stays. */
  lemma TrimAround(p: string, s: string, q: string)
    requires AllSpace(p) && AllSpace(q) && Trimmed(s)
    ensures Trim(p + s + q) == s
    ensures Trim(p + s) == s
  {
    hide TrimStart, TrimEnd, AllSpace;
    TrimBefore(p, s);
    assert p + s + q == p + (s + q);
    TrimStartOf(p, s + q);
    TrimAfter(s, q);
    if s == "" {
      NoSpace();
      TrimBlank("");
    }
  }

  /** Trimming at the start stops at a mark that is no blank, and at the end too. */
  lemma {:induction false} TrimStartToMark(a: string, mark: char, b: string)
    requires !IsSpace(mark)
    ensures TrimStart(a + [mark] + b) == TrimStart(a) + [mark] + b
  {
    if a != "" && IsSpace(a[0]) {
      assert (a + [mark] + b)[1..] == a[1..] + [mark] + b;
      TrimStartToMark(a[1..], mark, b);
    } else {
      assert (a + [mark] + b)[0] == if a == "" then mark else a[0];
    }
  }

  lemma {:induction false} TrimEndToMark(a: string, mark: char, b: string)
    requires !IsSpace(mark)
    ensures TrimEnd(a + [mark] + b) == a + [mark] + TrimEnd(b)
    decreases |b|
  {
    var s := a + [mark] + b;
    if b != "" && IsSpace(b[|b| - 1]) {
      assert s[..|s| - 1] == a + [mark] + b[..|b| - 1];
      TrimEndToMark(a, mark, b[..|b| - 1]);
    } else {
      assert s[|s| - 1] == if b == "" then mark else b[|b| - 1];
      assert TrimEnd(b) == b;
    }
  }

  // Lines.

  predicate Plain(s: string) { ';' !in s && '#' !in s }

  lemma {:induction false} CommentCut(v: string, t: string)
    requires Plain(v) && IsComment(t)
    ensures BeforeComment(v + t) == v
  {
    if v == "" {
      assert v + t == t;
    } else {
      assert (v + t)[1..] == v[1..] + t;
      CommentCut(v[1..], t);
    }
  }

  lemma AllSpaceIsPlain(s: string)
    requires AllSpace(s)
    ensures Plain(s) && '=' !in s
  {
  }

  /** The trimmed line up to its equals sign. */
  function KeyPart(key: string, beforeEq: string): string { if key == "" then "" else key + beforeEq }

  lemma TrimKey(before: string, key: string, beforeEq: string)
    requires AllSpace(before) && AllSpace(beforeEq) && Trimmed(key) && '=' !in key
    ensures TrimStart(before + key + beforeEq) == KeyPart(key, beforeEq)
    ensures '=' !in KeyPart(key, beforeEq) && Trim(KeyPart(key, beforeEq)) == key
  {
    hide AllSpace;
    AllSpaceIsPlain(beforeEq);
    TrimAround("", key, beforeEq) by { NoSpace(); }
    assert "" + key + beforeEq == key + beforeEq;
    assert before + key + beforeEq == before + (key + beforeEq);
    TrimStartOf(before, key + beforeEq);
    if key == "" {
      assert key + beforeEq == beforeEq;
      TrimBlank(beforeEq);
    }
  }

  lemma NoSpace()
    ensures AllSpace("")
  {
  }

  lemma PlainConcat(a: string, b: string)
    requires Plain(a) && Plain(b)
    ensures Plain(a + b)
  {
  }

  lemma TrimBareValue(afterEq: string, value: string, after: string)
    requires AllSpace(afterEq) && AllSpace(after) && Trimmed(value) && Plain(value)
    ensures Trim(BeforeComment(TrimEnd(afterEq + value + after))) == value
  {
    hide AllSpace, BeforeComment, Plain, TrimStart;
    AllSpaceIsPlain(afterEq);
    TrimEndOf(afterEq + value, after);
    if value == "" {
      assert afterEq + value == afterEq;
      TrimBlank(afterEq);
      Nothing();
    } else {
      PlainConcat(afterEq, value);
      CommentCut(afterEq + value, "");
      assert afterEq + value + "" == afterEq + value;
      TrimAround(afterEq, value, after);
    }
  }

  lemma Nothing()
    ensures Trim(BeforeComment("")) == ""
  {
  }

  lemma TrimValue(afterEq: string, value: string, after: string, comment: string)
    requires AllSpace(afterEq) && AllSpace(after) && IsComment(comment) && Trimmed(value) && Plain(value)
    ensures Trim(BeforeComment(TrimEnd((afterEq + value + after) + comment))) == value
  {
    hide AllSpace, BeforeComment, Plain, TrimStart, TrimEnd, Trim, Trimmed;
    var v := afterEq + value + after;
    if comment == "" {
      assert v + comment == v;
      TrimBareValue(afterEq, value, after);
    } else {
      AllSpaceIsPlain(afterEq);
      AllSpaceIsPlain(after);
      PlainConcat(afterEq, value);
      PlainConcat(afterEq + value, after);
      assert v + comment == v + [comment[0]] + comment[1..];
      TrimEndToMark(v, comment[0], comment[1..]);
      var rest := [comment[0]] + TrimEnd(comment[1..]);
      assert v + [comment[0]] + TrimEnd(comment[1..]) == v + rest;
      CommentCut(v, rest);
      TrimAround(afterEq, value, after);
    }
  }

  lemma PairSays(sections: seq<Section>, l: Line)
    requires l.Pair? && Printable(l)
    ensures AddLine(sections, PrintLine(l)) == AddEntry(sections, Entry(l.key, l.value))
  {
    hide AllSpace, Find, BeforeComment, AddEntry, TrimStart, TrimEnd, Trimmed, KeyPart;
    var a, b := l.before + l.key + l.beforeEq, (l.afterEq + l.value + l.after) + l.comment;
    var k := KeyPart(l.key, l.beforeEq);
    TrimKey(l.before, l.key, l.beforeEq);
    TrimStartToMark(a, '=', b);
    TrimEndToMark(k, '=', b);
    var line := k + "=" + TrimEnd(b);
    assert Trim(PrintLine(l)) == line;
    FindFirst(k, '=', TrimEnd(b));
    assert line[..|k|] == k && line[|k| + 1..] == TrimEnd(b);
    TrimValue(l.afterEq, l.value, l.after, l.comment);
    KeyPartStart(l.key, l.beforeEq, TrimEnd(b));
  }

  lemma KeyPartStart(key: string, beforeEq: string, rest: string)
    ensures (KeyPart(key, beforeEq) + "=" + rest)[0] == if key == "" then '=' else key[0]
  {
  }

  lemma HeaderSays(sections: seq<Section>, l: Line)
    requires l.Header? && Printable(l)
    ensures AddLine(sections, PrintLine(l)) == sections + [Section(l.name, [])]
  {
    hide AllSpace, Find;
    TrimAround(l.before, "[" + l.name + "]", l.after);
  }

  lemma NoteSays(sections: seq<Section>, l: Line)
    requires l.Note? && Printable(l)
    ensures AddLine(sections, PrintLine(l)) == sections
  {
    hide AllSpace, Find;
    TrimStartOf(l.before, l.comment);
    if l.comment != "" {
      TrimEndToMark("", l.comment[0], l.comment[1..]);
      assert "" + [l.comment[0]] + l.comment[1..] == l.comment;
    }
  }

  /** A printed line says what it was printed from. */
  lemma LineSays(sections: seq<Section>, l: Line)
    requires Printable(l)
    ensures AddLine(sections, PrintLine(l)) == Say(sections, l)
  {
    hide AddLine, PrintLine;
    match l
    case Note(_, _) => NoteSays(sections, l);
    case Header(_, _, _) => HeaderSays(sections, l);
    case Pair(_, _, _, _, _, _, _) => PairSays(sections, l);
    case Other(_, _, _) => OtherSays(sections, l);
  }

  lemma OtherSays(sections: seq<Section>, l: Line)
    requires l.Other? && Printable(l)
    ensures AddLine(sections, PrintLine(l)) == sections
  {
    hide AllSpace;
    TrimAround(l.before, l.text, l.after);
  }

  /** Entries before the first header are lost. */
  lemma {:induction false} NothingBeforeHeader(lines: seq<Line>)
    requires forall l :: l in lines ==> !l.Header?
    ensures SayAll([], lines) == []
  {
    if lines != [] {
      assert lines[0] in lines;
      NothingBeforeHeader(lines[1..]);
    }
  }

  /** Loading a printed file rebuilds what it says, whatever its blanks and comments. */
  lemma {:induction false} LoadPrinted(sections: seq<Section>, lines: seq<Line>)
    requires forall l :: l in lines ==> Printable(l)
    ensures LoadFrom(sections, PrintLines(lines)) == SayAll(sections, lines)
    decreases |lines|
  {
    hide AddLine, PrintLine, Find, Say;
    if lines != [] {
      var line, rest := PrintLine(lines[0]), PrintLines(lines[1..]);
      FindFirst(line, '\n', rest) by { assert Printable(lines[0]); }
      assert (line + "\n" + rest)[..|line|] == line && (line + "\n" + rest)[|line| + 1..] == rest;
      LineSays(sections, lines[0]);
      LoadPrinted(Say(sections, lines[0]), lines[1..]);
    }
  }

  // A list of sections, printed plainly.

  function EntryLines(entries: seq<Entry>): seq<Line> {
    if entries == [] then []
    else EntryLines(entries[..|entries| - 1])
         + [Pair("", entries[|entries| - 1].key, "", "", entries[|entries| - 1].value, "", "")]
  }

  function SectionLines(sections: seq<Section>): seq<Line> {
    if sections == [] then []
    else SectionLines(sections[..|sections| - 1])
         + ([Header("", sections[|sections| - 1].name, "")] + EntryLines(sections[|sections| - 1].entries))
  }

  lemma {:induction false} SayConcat(sections: seq<Section>, a: seq<Line>, b: seq<Line>)
    ensures SayAll(sections, a + b) == SayAll(SayAll(sections, a), b)
    decreases |a|
  {
    hide Say;
    if a == [] {
      assert a + b == b;
    } else {
      assert (a + b)[1..] == a[1..] + b;
      SayConcat(Say(sections, a[0]), a[1..], b);
    }
  }

  lemma SayOne(sections: seq<Section>, l: Line)
    ensures SayAll(sections, [l]) == Say(sections, l)
  {
  }

  lemma {:induction false} SayEntries(before: seq<Section>, name: string, entries: seq<Entry>)
    ensures SayAll(before + [Section(name, [])], EntryLines(entries)) == before + [Section(name, entries)]
  {
    if entries != [] {
      var rest, e := entries[..|entries| - 1], entries[|entries| - 1];
      SayEntries(before, name, rest);
      SayConcat(before + [Section(name, [])], EntryLines(rest), [Pair("", e.key, "", "", e.value, "", "")]);
      SayOne(before + [Section(name, rest)], Pair("", e.key, "", "", e.value, "", ""));
      assert rest + [e] == entries;
    }
  }

  lemma {:induction false} SaySections(sections: seq<Section>)
    ensures SayAll([], SectionLines(sections)) == sections
  {
    hide Say;
    if sections != [] {
      var rest, s := sections[..|sections| - 1], sections[|sections| - 1];
      var header := Header("", s.name, "");
      SaySections(rest);
      SayConcat([], SectionLines(rest), [header] + EntryLines(s.entries));
      SayConcat(rest, [header], EntryLines(s.entries));
      SayOne(rest, header);
      assert Say(rest, header) == rest + [Section(s.name, [])] by { SayHeader(rest, s.name); }
      SayEntries(rest, s.name, s.entries);
      assert rest + [s] == sections;
    }
  }

  lemma SayHeader(sections: seq<Section>, name: string)
    ensures Say(sections, Header("", name, "")) == sections + [Section(name, [])]
  {
  }

  predicate Writable(e: Entry) {
    && Trimmed(e.key) && '=' !in e.key && '\n' !in e.key
    && (e.key == "" || (e.key[0] != '[' && e.key[0] != ';' && e.key[0] != '#'))
    && Trimmed(e.value) && Plain(e.value) && '\n' !in e.value
  }

  predicate WritableSection(s: Section) {
    '\n' !in s.name && forall e :: e in s.entries ==> Writable(e)
  }

  lemma WritablePair(e: Entry)
    requires Writable(e)
    ensures Printable(Pair("", e.key, "", "", e.value, "", ""))
  {
    hide Trimmed;
    assert "" + e.key + "" == e.key && ("" + e.value + "") + "" == e.value;
  }

  lemma WritableHeader(s: Section)
    requires WritableSection(s)
    ensures Printable(Header("", s.name, ""))
  {
  }

  lemma {:induction false} EntryLinesPrintable(entries: seq<Entry>)
    requires forall e :: e in entries ==> Writable(e)
    ensures forall l :: l in EntryLines(entries) ==> Printable(l)
  {
    hide Printable, Writable;
    if entries != [] {
      var e := entries[|entries| - 1];
      EntryLinesPrintable(entries[..|entries| - 1]);
      assert e in entries;
      WritablePair(e);
    }
  }

  lemma {:induction false} SectionLinesPrintable(sections: seq<Section>)
    requires forall s :: s in sections ==> WritableSection(s)
    ensures forall l :: l in SectionLines(sections) ==> Printable(l)
  {
    hide Printable, Writable;
    if sections != [] {
      var s := sections[|sections| - 1];
      SectionLinesPrintable(sections[..|sections| - 1]);
      assert s in sections;
      EntryLinesPrintable(s.entries);
      WritableHeader(s);
    }
  }

  /** Round trip: loading the printed sections gives back exactly the sections. */
  lemma RoundTrip(sections: seq<Section>)
    requires forall s :: s in sections ==> WritableSection(s)
    ensures LoadFrom([], PrintLines(SectionLines(sections))) == sections
  {
    SectionLinesPrintable(sections);
    LoadPrinted([], SectionLines(sections));
    SaySections(sections);
  }
}
