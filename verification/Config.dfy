/** The configuration object: loading an INI text and looking up values without regard to case. */
module Config {
  import opened Options
  import opened Strings
  import opened IniText

  /** std::tolower */
  function Lower(c: char): char { if 'A' <= c <= 'Z' then c + ('a' - 'A') else c }

  /** iequals */
  predicate SameName(a: string, b: string) {
    |a| == |b| && forall i :: 0 <= i < |a| ==> Lower(a[i]) == Lower(b[i])
  }

  /** The same letter, or one the capital of the other. */
  predicate SameLetter(c: char, d: char) {
    || c == d
    || ('A' <= c <= 'Z' && d as int == c as int + 32)
    || ('A' <= d <= 'Z' && c as int == d as int + 32)
  }

  /** Names are the same exactly when they are letter by letter, up to case. */
  lemma SameNameExactly(a: string, b: string)
    ensures SameName(a, b) <==> |a| == |b| && forall i :: 0 <= i < |a| ==> SameLetter(a[i], b[i])
  {
    assert forall i :: 0 <= i < |a| && i < |b| ==> (Lower(a[i]) == Lower(b[i]) <==> SameLetter(a[i], b[i]));
  }

  /** The first entry with the key, |entries| when there is none. */
  function FirstEntry(entries: seq<Entry>, key: string): (i: nat)
    ensures i <= |entries| && (i < |entries| ==> SameName(entries[i].key, key))
    ensures forall j :: 0 <= j < i ==> !SameName(entries[j].key, key)
  {
    if entries == [] || SameName(entries[0].key, key) then 0 else FirstEntry(entries[1..], key) + 1
  }

  function FirstSection(sections: seq<Section>, name: string): (i: nat)
    ensures i <= |sections| && (i < |sections| ==> SameName(sections[i].name, name))
    ensures forall j :: 0 <= j < i ==> !SameName(sections[j].name, name)
  {
    if sections == [] || SameName(sections[0].name, name) then 0 else FirstSection(sections[1..], name) + 1
  }

  /** Section::get */
  function EntryValue(entries: seq<Entry>, key: string): Option<string> {
    var i := FirstEntry(entries, key);
    if i < |entries| then Some(entries[i].value) else None
  }

  /** Config::get: only the first section of the name is asked, even when a later one has the key. */
  function Lookup(sections: seq<Section>, name: string, key: string): (v: Option<string>)
    ensures v.Some? ==> exists i, j ::
              0 <= i < |sections| && 0 <= j < |sections[i].entries|
              && SameName(sections[i].name, name) && SameName(sections[i].entries[j].key, key)
              && v.value == sections[i].entries[j].value
              && (forall k :: 0 <= k < i ==> !SameName(sections[k].name, name))
              && (forall k :: 0 <= k < j ==> !SameName(sections[i].entries[k].key, key))
    ensures v.None? ==> forall i ::
              0 <= i < |sections| && SameName(sections[i].name, name)
              && (forall k :: 0 <= k < i ==> !SameName(sections[k].name, name)) ==>
              forall j :: 0 <= j < |sections[i].entries| ==> !SameName(sections[i].entries[j].key, key)
  {
    var i := FirstSection(sections, name);
    if i < |sections| then
      assert EntryValue(sections[i].entries, key).Some? ==>
        SameName(sections[i].entries[FirstEntry(sections[i].entries, key)].key, key);
      EntryValue(sections[i].entries, key)
    else None
  }

  /** Upper and lower case make no difference, in the names asked for or in those in the file. */
  lemma CaseDoesNotMatter(sections: seq<Section>, name: string, name': string, key: string, key': string)
    requires SameName(name, name') && SameName(key, key')
    ensures Lookup(sections, name, key) == Lookup(sections, name', key')
  {
    hide Lower;
    SameFirstSection(sections, name, name');
    var i := FirstSection(sections, name);
    if i < |sections| {
      SameFirstEntry(sections[i].entries, key, key');
    }
  }

  lemma {:induction false} SameFirstSection(sections: seq<Section>, name: string, name': string)
    requires SameName(name, name')
    ensures FirstSection(sections, name) == FirstSection(sections, name')
  {
    if sections != [] && !SameName(sections[0].name, name) {
      SameFirstSection(sections[1..], name, name');
    }
  }

  lemma {:induction false} SameFirstEntry(entries: seq<Entry>, key: string, key': string)
    requires SameName(key, key')
    ensures FirstEntry(entries, key) == FirstEntry(entries, key')
  {
    if entries != [] && !SameName(entries[0].key, key) {
      SameFirstEntry(entries[1..], key, key');
    }
  }

  method IEquals(a: string, b: string) returns (same: bool)
    ensures same == SameName(a, b)
  {
    if |a| != |b| {
      return false;
    }
    for i := 0 to |a|
      invariant forall j :: 0 <= j < i ==> Lower(a[j]) == Lower(b[j])
    {
      if Lower(a[i]) != Lower(b[i]) {
        return false;
      }
    }
    return true;
  }

  /** The two trimming loops. */
  method TrimView(s: string) returns (t: string)
    ensures t == Trim(s)
  {
    t := s;
    while t != "" && IsSpace(t[0])
      invariant TrimStart(t) == TrimStart(s)
      decreases |t|
    {
      t := t[1..];
    }
    while t != "" && IsSpace(t[|t| - 1])
      invariant TrimEnd(t) == Trim(s)
      decreases |t|
    {
      t := t[..|t| - 1];
    }
  }

  /** v up to find_first_of(";#"). */
  method CutComment(v: string) returns (r: string)
    ensures r == BeforeComment(v)
  {
    var i := 0;
    while i < |v| && v[i] != ';' && v[i] != '#'
      invariant i <= |v| && Plain(v[..i])
    {
      assert v[..i + 1] == v[..i] + [v[i]];
      i := i + 1;
    }
    CommentCut(v[..i], v[i..]);
    assert v[..i] + v[i..] == v;
    return v[..i];
  }

  class Config {
    var sections: seq<Section>

    /** The body of load_text's loop, for a line that is already trimmed. */
    method TakeLine(line: string)
      modifies this
      ensures sections == AddTrimmed(old(sections), line)
    {
      hide Find, Trim, BeforeComment;
      if line == "" || line[0] == '#' || line[0] == ';' {
        return;
      }
      if line[0] == '[' && line[|line| - 1] == ']' {
        sections := sections + [Section(line[1..|line| - 1], [])];
        return;
      }
      var eqPos := Find(line, '=');
      if eqPos < |line| && sections != [] {
        var v := CutComment(line[eqPos + 1..]);
        var k := TrimView(line[..eqPos]);
        v := TrimView(v);
        var last := sections[|sections| - 1];
        sections := sections[|sections| - 1 := last.(entries := last.entries + [Entry(k, v)])];
      }
    }

    method LoadText(text: string) returns (ok: bool)
      modifies this
      ensures ok && sections == LoadFrom([], text)
    {
      hide Find, AddTrimmed, Trim, LoadFrom, From, AfterLine;
      sections := [];
      var start := 0;
      FromIs(text, 0);
      while start < |text|
        invariant LoadFrom([], text) == LoadFrom(sections, From(text, start))
        decreases |text| - start
      {
        var end := start + Find(text[start..], '\n');
        LineFrom(text, start, end);
        LoadLine(sections, From(text, start));
        var line := TrimView(text[start..end]);
        start := end + 1;
        TakeLine(line);
      }
      FromIs(text, start);
      LoadNothing(sections);
      return true;
    }

    lemma LoadLine(sections: seq<Section>, text: string)
      requires text != ""
      ensures LoadFrom(sections, text) ==
              LoadFrom(AddTrimmed(sections, Trim(text[..Find(text, '\n')])), AfterLine(text))
    {
      hide Find, AddTrimmed, Trim, AfterLine;
    }

    lemma LoadNothing(sections: seq<Section>)
      ensures LoadFrom(sections, "") == sections
    {
    }

    method Get(section: string, key: string) returns (v: Option<string>)
      ensures v == Lookup(sections, section, key)
    {
      hide SameName;
      for i := 0 to |sections|
        invariant forall j :: 0 <= j < i ==> !SameName(sections[j].name, section)
      {
        var same := IEquals(sections[i].name, section);
        if same {
          v := GetEntry(sections[i].entries, key);
          assert i == FirstSection(sections, section);
          return;
        }
      }
      return None;
    }

    method GetEntry(entries: seq<Entry>, key: string) returns (v: Option<string>)
      ensures v == EntryValue(entries, key)
    {
      hide SameName;
      for i := 0 to |entries|
        invariant forall j :: 0 <= j < i ==> !SameName(entries[j].key, key)
      {
        var same := IEquals(entries[i].key, key);
        if same {
          assert i == FirstEntry(entries, key);
          return Some(entries[i].value);
        }
      }
      return None;
    }
  }
}
