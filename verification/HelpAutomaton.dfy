/**
  The tracker of the typed word "help" (help/help_command_tracker.hpp) against a line editor that remembers
  everything typed.
  */
module HelpAutomaton {
  import opened Blocks

  const BUFFER: nat := 8

  datatype Tracker = Typing(text: string) | Escape | Csi

  predicate WellFormed(t: Tracker) { t.Typing? ==> |t.text| < BUFFER }

  type ValidTracker = t: Tracker | WellFormed(t) witness Typing("")

  predicate EndsLine(c: char) { c == '\r' || c == '\n' }

  predicate Deletes(c: char) { c == '\U{7F}' || c == '\U{08}' }

  /** process_char outside escapes, for what is neither an escape, the end of a line nor a deletion. */
  function Append(text: string, c: char): (r: string)
    requires |text| < BUFFER
    ensures |r| < BUFFER
  {
    if |text| < BUFFER - 1 then text + [c] else "~" + text[1..]
  }

  /** process_char */
  function Next(t: ValidTracker, c: char): ValidTracker {
    if EndsLine(c) then Typing("")
    else
      match t
      case Typing(text) =>
        if c == '\U{1B}' then Escape
        else if Deletes(c) then Typing(if text == "" then "" else text[..|text| - 1])
        else if c as int < 32 then Typing("")
        else Typing(Append(text, c))
      case Escape => if c == '[' then Csi else Typing("")
      case Csi => if 0x40 <= c as int <= 0x7E then Typing("") else Csi
  }

  /** Whether process_char reports the command. */
  predicate Fires(t: Tracker, c: char) { EndsLine(c) && t == Typing("help") }

  /** The state after a history of characters. */
  function Tracked(history: string): ValidTracker {
    if history == "" then Typing("") else Next(Tracked(history[..|history| - 1]), history[|history| - 1])
  }

  /** feed, from a state: where it ends, and whether any character fired. */
  function Feed(t: ValidTracker, s: string): (ValidTracker, bool)
    decreases |s|
  {
    if s == "" then (t, false)
    else
      var (last, fired) := Feed(Next(t, s[0]), s[1..]);
      (last, Fires(t, s[0]) || fired)
  }

  // The line editor.

  /**
    What was typed since the line was started, without a bound. `within` says that the line has not exceeded
    7 characters since it was last empty.
    */
  datatype Editor = Line(line: string, within: bool) | InEscape | InCsi

  const FRESH_LINE: Editor := Line("", true)

  function Grown(line: string, within: bool): Editor {
    Line(line, line == "" || (within && |line| < BUFFER))
  }

  function Edit(e: Editor, c: char): Editor {
    if c == '\r' || c == '\n' then FRESH_LINE
    else
      match e
      case Line(line, within) =>
        if c == '\U{1B}' then InEscape
        else if c == '\U{7F}' || c == '\U{08}' then (if line == "" then e else Grown(line[..|line| - 1], within))
        else if c as int < 32 then FRESH_LINE
        else Grown(line + [c], within)
      case InEscape => if c == '[' then InCsi else FRESH_LINE
      case InCsi => if 0x40 <= c as int <= 0x7E then FRESH_LINE else InCsi
  }

  function Edited(history: string): Editor {
    if history == "" then FRESH_LINE else Edit(Edited(history[..|history| - 1]), history[|history| - 1])
  }

  /** The tracker holds the whole line while that stays within its buffer, and a shorter text after. */
  ghost predicate Follows(t: Tracker, e: Editor) {
    match e
    case Line(line, within) =>
      t.Typing? && if within then t.text == line else |t.text| < |line|
    case InEscape => t == Escape
    case InCsi => t == Csi
  }

  lemma NextFollows(t: Tracker, e: Editor, c: char)
    requires WellFormed(t) && Follows(t, e) && (e.Line? && e.within ==> |e.line| < BUFFER)
    ensures Follows(Next(t, c), Edit(e, c))
  {
  }

  lemma {:induction false} TrackedFollows(history: string)
    ensures Follows(Tracked(history), Edited(history))
    ensures var e := Edited(history); e.Line? && e.within ==> |e.line| < BUFFER
  {
    if history != "" {
      TrackedFollows(history[..|history| - 1]);
      NextFollows(Tracked(history[..|history| - 1]), Edited(history[..|history| - 1]), history[|history| - 1]);
    }
  }

  /**
    While the line has not exceeded 7 characters since it was last empty, the end of a line fires exactly when
    the line is "help". Once it has, the tracker is never right again before the line ends or is empty: it
    misses the line "help", and when it does fire the line is another one.
    */
  lemma FiresExactly(history: string, c: char)
    ensures c != '\r' && c != '\n' ==> !Fires(Tracked(history), c)
    ensures var e := Edited(history); c == '\r' || c == '\n' ==>
            && (e.Line? && e.within ==> (Fires(Tracked(history), c) <==> e.line == "help"))
            && (e.Line? && !e.within && e.line == "help" ==> !Fires(Tracked(history), c))
            && (!e.Line? ==> !Fires(Tracked(history), c))
  {
    TrackedFollows(history);
  }

  /** After an empty text the tracker goes on as from the start. */
  lemma {:induction false} TrackedFromEmpty(before: string, after: string)
    requires Tracked(before) == Typing("")
    ensures Tracked(before + after) == Tracked(after)
    decreases |after|
  {
    hide Next;
    if after == "" {
      assert before + after == before;
    } else {
      assert (before + after)[..|before + after| - 1] == before + after[..|after| - 1];
      TrackedFromEmpty(before, after[..|after| - 1]);
    }
  }

  /** The text is what was edited since some moment at which it was empty, unless it has overflowed since. */
  ghost predicate EditedSince(history: string, i: nat, text: string) {
    && i <= |history| && Tracked(history[..i]) == Typing("")
    && (Edited(history[i..]) == Line(text, true) || (text != "" && text[0] == '~'))
  }

  lemma {:induction false} TextSinceEmpty(history: string)
    requires Tracked(history).Typing?
    ensures exists i: nat :: EditedSince(history, i, Tracked(history).text)
    decreases |history|
  {
    if Tracked(history).text == "" {
      assert history[..|history|] == history && history[|history|..] == "";
      assert EditedSince(history, |history|, "");
    } else {
      var before, c := history[..|history| - 1], history[|history| - 1];
      TextSinceEmpty(before);
      var i: nat :| EditedSince(before, i, Tracked(before).text);
      assert before[..i] == history[..i] && history[i..] == before[i..] + [c];
      More(before[i..], c);
      OneMore(Tracked(before), Edited(before[i..]), c);
      assert EditedSince(history, i, Tracked(history).text);
    }
  }

  lemma OneMore(t: ValidTracker, e: Editor, c: char)
    requires t.Typing? && Next(t, c).Typing? && Next(t, c).text != ""
    requires e == Line(t.text, true) || (t.text != "" && t.text[0] == '~')
    ensures Edit(e, c) == Line(Next(t, c).text, true) || Next(t, c).text[0] == '~'
  {
  }

  /** The text was empty at moment i, and an editor that starts there holds the word. */
  ghost predicate SpellsSince(history: string, i: nat, word: string) {
    i <= |history| && Tracked(history[..i]) == Typing("") && Edited(history[i..]) == Line(word, true)
  }

  /**
    When a character fires, on any history: it ends a line, and since some moment at which the text was empty, the
    characters typed spell "help" in an editor that starts there.
    */
  lemma FiresIff(history: string, c: char)
    ensures Fires(Tracked(history), c) <==>
            (c == '\r' || c == '\n') && exists i: nat :: SpellsSince(history, i, "help")
  {
    if Fires(Tracked(history), c) {
      TextSinceEmpty(history);
      var i: nat :| EditedSince(history, i, Tracked(history).text);
      assert SpellsSince(history, i, "help");
    }
    if i: nat :| SpellsSince(history, i, "help") {
      assert history == history[..i] + history[i..];
      TrackedFromEmpty(history[..i], history[i..]);
      TrackedFollows(history[i..]);
    }
  }

  /** An overflow: a character that no longer fits. */
  predicate Overflows(t: Tracker, c: char) {
    t.Typing? && |t.text| == BUFFER - 1 && !EndsLine(c) && !Deletes(c) && c as int >= 32
  }

  /** No state of the run after t is one with an empty text. */
  predicate NeverEmpty(t: ValidTracker, s: string)
    decreases |s|
  {
    s == "" || (Next(t, s[0]).Typing? && Next(t, s[0]).text != "" && NeverEmpty(Next(t, s[0]), s[1..]))
  }

  /** After an overflow, which costs the text its first character, nothing fires until it has been empty again. */
  lemma OverflowBlocks(t: ValidTracker, c: char, s: string, d: char)
    requires Overflows(t, c) && NeverEmpty(Next(t, c), s)
    ensures Next(t, c) == Typing(t.text[0 := '~'])
    ensures !Feed(Next(t, c), s).1 && !Fires(Feed(Next(t, c), s).0, d)
  {
    TildeStays(Next(t, c), s, d);
  }

  lemma {:induction false} TildeStays(t: ValidTracker, s: string, d: char)
    requires t.Typing? && t.text != "" && t.text[0] == '~' && NeverEmpty(t, s)
    ensures !Feed(t, s).1 && !Fires(Feed(t, s).0, d)
    decreases |s|
  {
    if s != "" {
      TildeStays(Next(t, s[0]), s[1..], d);
    }
  }

  lemma More(h: string, c: char)
    ensures Tracked(h + [c]) == Next(Tracked(h), c) && Edited(h + [c]) == Edit(Edited(h), c)
  {
    assert (h + [c])[..|h + [c]| - 1] == h;
  }

  /** A character of s fires, after a history. */
  ghost predicate SomeFires(history: string, s: string) {
    exists i: nat :: i < |s| && Fires(Tracked(history + s[..i]), s[i])
  }

  /** feed goes on from where the tracker is and reports whether any of the characters fires. */
  lemma {:induction false} FeedReports(history: string, s: string)
    ensures Feed(Tracked(history), s) == (Tracked(history + s), SomeFires(history, s))
    decreases |s|
  {
    hide Fires, Tracked, Next;
    if s == "" {
      assert history + s == history;
    } else {
      More(history, s[0]);
      FeedReports(history + [s[0]], s[1..]);
      assert history + [s[0]] + s[1..] == history + s;
      FirstOrLater(history, s);
    }
  }

  lemma FirstOrLater(history: string, s: string)
    requires s != ""
    ensures SomeFires(history, s) <==> Fires(Tracked(history), s[0]) || SomeFires(history + [s[0]], s[1..])
  {
    hide Fires, Tracked;
    assert history + s[..0] == history;
    forall i: nat | 0 < i < |s| ensures history + [s[0]] + s[1..][..i - 1] == history + s[..i] {
      assert s[..i] == [s[0]] + s[1..][..i - 1];
    }
    if i: nat :| i < |s| && Fires(Tracked(history + s[..i]), s[i]) {
      if i > 0 {
        assert s[1..][i - 1] == s[i];
      }
    }
    if i: nat :| i < |s[1..]| && Fires(Tracked(history + [s[0]] + s[1..][..i]), s[1..][i]) {
      assert history + [s[0]] + s[1..][..i] == history + s[..i + 1] && s[1..][i] == s[i + 1];
    }
  }

  lemma {:induction false} Keys(n: nat)
    requires n < BUFFER
    ensures Tracked(Fill(n, 'x')) == Typing(Fill(n, 'x')) && Edited(Fill(n, 'x')) == Line(Fill(n, 'x'), true)
  {
    hide Next, Edit;
    if n > 0 {
      Keys(n - 1);
      More(Fill(n - 1, 'x'), 'x');
      KeyWithin(Fill(n - 1, 'x'), 'x');
      assert Fill(n, 'x') == Fill(n - 1, 'x') + ['x'];
    }
  }

  lemma KeyWithin(text: string, c: char)
    requires |text| < BUFFER - 1 && 'a' <= c <= 'z'
    ensures Next(Typing(text), c) == Typing(text + [c]) && Edit(Line(text, true), c) == Line(text + [c], true)
  {
  }

  lemma EightKeys()
    ensures Tracked(Fill(8, 'x')) == Typing("~xxxxxx") && Edited(Fill(8, 'x')) == Line(Fill(8, 'x'), false)
  {
    Keys(7);
    More(Fill(7, 'x'), 'x');
    assert Fill(7, 'x') + ['x'] == Fill(8, 'x') && "~" + Fill(7, 'x')[1..] == "~xxxxxx";
  }

  lemma {:induction false} Deletions(n: nat)
    requires n < BUFFER
    ensures Tracked(Fill(8, 'x') + Fill(n, '\U{08}')) == Typing("~xxxxxx"[..7 - n])
    ensures Edited(Fill(8, 'x') + Fill(n, '\U{08}')) == Line(Fill(8 - n, 'x'), false)
  {
    hide Tracked, Edited, Next, Edit;
    if n > 0 {
      Deletions(n - 1);
      More(Fill(8, 'x') + Fill(n - 1, '\U{08}'), '\U{08}');
      assert Fill(8, 'x') + Fill(n - 1, '\U{08}') + ['\U{08}'] == Fill(8, 'x') + Fill(n, '\U{08}');
      OneDeletion(n);
    } else {
      EightKeys();
      assert Fill(8, 'x') + Fill(0, '\U{08}') == Fill(8, 'x');
      assert "~xxxxxx"[..7] == "~xxxxxx";
    }
  }

  lemma OneDeletion(n: nat)
    requires 0 < n < BUFFER
    ensures Next(Typing("~xxxxxx"[..8 - n]), '\U{08}') == Typing("~xxxxxx"[..7 - n])
    ensures Edit(Line(Fill(9 - n, 'x'), false), '\U{08}') == Line(Fill(8 - n, 'x'), false)
  {
    assert "~xxxxxx"[..8 - n][..7 - n] == "~xxxxxx"[..7 - n];
    assert Fill(9 - n, 'x')[..8 - n] == Fill(8 - n, 'x');
  }

  /** Eight characters, seven deletions and "help": the line is "xhelp", yet its end fires. */
  lemma FiresOnOtherLine()
    ensures var h := Fill(8, 'x') + Fill(7, '\U{08}') + "h" + "e" + "l" + "p";
            Edited(h) == Line("xhelp", false) && Fires(Tracked(h), '\r')
  {
    hide Next, Edit, Tracked, Edited;
    var h := Fill(8, 'x') + Fill(7, '\U{08}');
    Deletions(7);
    assert "~xxxxxx"[..0] == "" && Fill(1, 'x') == "x";
    More(h, 'h');
    More(h + "h", 'e');
    More(h + "h" + "e", 'l');
    More(h + "h" + "e" + "l", 'p');
    TypeHelp();
  }

  lemma TypeHelp()
    ensures Next(Next(Next(Next(Typing(""), 'h'), 'e'), 'l'), 'p') == Typing("help")
    ensures Edit(Edit(Edit(Edit(Line("x", false), 'h'), 'e'), 'l'), 'p') == Line("xhelp", false)
  {
    hide Next, Edit;
    TypeKey("", "x", 'h');
    TypeKey("h", "xh", 'e');
    TypeKey("he", "xhe", 'l');
    TypeKey("hel", "xhel", 'p');
    assert "" + ['h'] == "h" && "h" + ['e'] == "he" && "he" + ['l'] == "hel" && "hel" + ['p'] == "help";
    assert "x" + ['h'] == "xh" && "xh" + ['e'] == "xhe" && "xhe" + ['l'] == "xhel" && "xhel" + ['p'] == "xhelp";
  }

  lemma TypeKey(text: string, line: string, c: char)
    requires |text| < BUFFER - 1 && 'a' <= c <= 'z'
    ensures Next(Typing(text), c) == Typing(text + [c]) && Edit(Line(line, false), c) == Line(line + [c], false)
  {
  }
}
