/** From bytes to operations: which control sequence of the legacy engine runs which command, on which numbers. */
module LegacySequences {
  import opened Decimal
  import opened Numbers
  import opened Options
  import opened ControlCharacters
  import opened Parameters
  import opened LegacyTerminal
  import opened LegacyCommands
  import opened LegacyStream

  /** The fields before the first empty one. */
  function Leading(fs: seq<Option<nat>>): (n: nat)
    ensures n <= |fs| && (forall i :: 0 <= i < n ==> fs[i].Some?) && (n < |fs| ==> fs[n].None?)
  {
    if fs == [] || fs[0].None? then 0 else 1 + Leading(fs[1..])
  }

  /** The i-th parameter as the command sees it: 1 where none was read. */
  function Arg(fs: seq<Option<nat>>, i: nat): nat {
    if i < Leading(fs) then fs[i].value else 1
  }

  function ArgsOf(fs: seq<Option<nat>>): Args {
    Args(Min(Leading(fs), 3), Arg(fs, 0), Arg(fs, 1), Arg(fs, 2))
  }

  function Rest(fs: seq<Option<nat>>): seq<Option<nat>> { if fs == [] then [] else fs[1..] }

  lemma ArgsByField(fs: seq<Option<nat>>)
    ensures var (a, b, c) := (First(fs), First(Rest(fs)), First(Rest(Rest(fs))));
            ArgsOf(fs) == if a.None? then Args(0, 1, 1, 1)
                          else if b.None? then Args(1, a.value, 1, 1)
                          else if c.None? then Args(2, a.value, b.value, 1)
                          else Args(3, a.value, b.value, c.value)
  {
    if |fs| > 1 {
      assert Leading(fs[1..]) == if fs[1].None? then 0 else 1 + Leading(fs[1..][1..]);
    }
  }

  /** What DigitsEnd finds at position i of a text whose rest are fields. */
  ghost predicate FieldRead(s: string, i: nat, fs: seq<Option<nat>>)
    requires i <= |s|
  {
    var e := DigitsEnd(s, i);
    && (if First(fs).Some? then e > i && Value(s[i..e]) == First(fs).value else e == i)
    && (e == |s| ==> First(Rest(fs)).None?)
  }

  lemma FieldIsRead(s: string, i: nat, fs: seq<Option<nat>>)
    requires i <= |s| && s[i..] == Fields(fs)
    ensures FieldRead(s, i, fs)
    ensures DigitsEnd(s, i) < |s| ==> s[DigitsEnd(s, i) + 1..] == Fields(Rest(fs))
  {
    hide Fields, DigitsEnd, Value;
    ReadField(s, i, fs);
  }

  /** Printed fields are read as the numbers they spell, at most three, up to the first empty one. */
  lemma ArgsOfFields(fs: seq<Option<nat>>)
    ensures ParseArgs(Fields(fs)) == ArgsOf(fs)
  {
    hide Fields, DigitsEnd, Value, ArgsOf, AllDigits, Rest, First;
    var s := Fields(fs);
    assert s[0..] == s;
    ArgsByField(fs);
    FieldIsRead(s, 0, fs);
    var e1 := DigitsEnd(s, 0);
    if e1 < |s| {
      FieldIsRead(s, e1 + 1, Rest(fs));
      var e2 := DigitsEnd(s, e1 + 1);
      if e2 < |s| {
        FieldIsRead(s, e2 + 1, Rest(Rest(fs)));
      }
    }
  }

  /** ESC [, a private mark if there is one, the fields and the final byte. */
  function Sequence(mark: Option<char>, fs: seq<Option<nat>>, c: char): Text
    requires c != NUL && mark != Some(NUL)
  {
    [ESC, '['] + (if mark.Some? then [mark.value] else "") + Fields(fs) + [c]
  }

  function Finished(o: ValidOutcome): Progress {
    match o
    case Done(s) => Stopped(s, "")
    case Outside => OutsidePage
  }

  predicate IsFinal(c: char) { !IsParam(c) && !IsPrivateMark(c) && c != NUL }

  lemma LexSequence(mark: Option<char>, fs: seq<Option<nat>>, c: char)
    requires IsFinal(c) && (mark.Some? ==> mark.value in "<=>?")
    ensures Lex(Sequence(mark, fs, c)) ==
            Complete(Csi(c, if mark.Some? then mark.value else ' ', Fields(fs)), |Sequence(mark, fs, c)|)
  {
    hide Fields;
    var buf, base := Sequence(mark, fs, c), if mark.Some? then 3 else 2;
    var end := base + |Fields(fs)|;
    assert buf[base..end] == Fields(fs) && buf[end] == c;
    assert forall k :: base <= k < end ==> buf[k] == Fields(fs)[k - base];
    assert mark.None? ==> !IsPrivateMark(buf[2]);
    ParamsEndAt(buf, base, end);
  }

  /** A control sequence runs its command on the numbers its fields spell, and is consumed. */
  lemma RunSequence(s: ValidState, mark: Option<char>, fs: seq<Option<nat>>, c: char)
    requires IsFinal(c) && (mark.Some? ==> mark.value in "<=>?")
    ensures Pass(s, Sequence(mark, fs, c)) ==
            Finished(CsiStep(s, c, if mark.Some? then mark.value else ' ', ArgsOf(fs)))
  {
    hide CsiStep, ParseArgs, ArgsOf, Fields, Lex, Sequence;
    LexSequence(mark, fs, c);
    ArgsOfFields(fs);
    var buf := Sequence(mark, fs, c);
    assert buf[|buf|..] == "";
  }

  /** The bytes of a sequence without a mark run a command and are consumed. */
  ghost predicate Runs(s: ValidState, fs: seq<Option<nat>>, c: char, o: Outcome) {
    && IsFinal(c)
    && var p := Pass(s, Sequence(None, fs, c));
       if o.Done? then p.Stopped? && p.s == o.s && p.rest == "" else p == OutsidePage
  }

  lemma RunsCommand(s: ValidState, fs: seq<Option<nat>>, c: char)
    requires IsFinal(c)
    ensures Runs(s, fs, c, CsiStep(s, c, ' ', ArgsOf(fs)))
  {
    hide CsiStep, Sequence, ArgsOf, Pass;
    RunSequence(s, None, fs, c);
  }

  /** The sequences that move the cursor. */
  lemma CursorSequences(s: ValidState, fs: seq<Option<nat>>)
    ensures var n, m := Arg(fs, 0), Arg(fs, 1);
            && Runs(s, fs, 'A', Done(Up(s, n))) && Runs(s, fs, 'B', Done(Down(s, n)))
            && Runs(s, fs, 'C', Done(Forward(s, n))) && Runs(s, fs, 'D', Done(Back(s, n)))
            && Runs(s, fs, 'd', Done(VerticalPosition(s, n)))
            && Runs(s, fs, 'G', Done(ToColumn(s, n))) && Runs(s, fs, '`', Done(ToColumn(s, n)))
            && Runs(s, fs, 'H', Done(CursorPosition(s, n, m))) && Runs(s, fs, 'f', Done(CursorPosition(s, n, m)))
  {
    hide Up, Down, Forward, Back, VerticalPosition, ToColumn, CursorPosition, Runs, Leading, Valid, Min;
    RunsCommand(s, fs, 'A');
    RunsCommand(s, fs, 'B');
    RunsCommand(s, fs, 'C');
    RunsCommand(s, fs, 'D');
    RunsCommand(s, fs, 'd');
    RunsCommand(s, fs, 'G');
    RunsCommand(s, fs, '`');
    RunsCommand(s, fs, 'H');
    RunsCommand(s, fs, 'f');
  }

  /** The sequences that erase, insert and delete; ED and EL without a number are mode 0. */
  lemma EditSequences(s: ValidState, fs: seq<Option<nat>>)
    ensures var n, mode := Arg(fs, 0), if Leading(fs) == 0 then 0 else Arg(fs, 0);
            && Runs(s, fs, 'J', EraseDisplay(s, mode)) && Runs(s, fs, 'K', EraseLine(s, mode))
            && Runs(s, fs, '@', EditCells(s, '@', n)) && Runs(s, fs, 'P', EditCells(s, 'P', n))
            && Runs(s, fs, 'X', EditCells(s, 'X', n))
            && Runs(s, fs, 'L', Done(EditLines(s, 'L', n))) && Runs(s, fs, 'M', Done(EditLines(s, 'M', n)))
  {
    hide EraseDisplay, EraseLine, EditCells, EditLines, Runs, Valid, Leading;
    RunsCommand(s, fs, 'J');
    RunsCommand(s, fs, 'K');
    RunsCommand(s, fs, '@');
    RunsCommand(s, fs, 'P');
    RunsCommand(s, fs, 'X');
    RunsCommand(s, fs, 'L');
    RunsCommand(s, fs, 'M');
  }

  /** Every other final byte but r and m does nothing, h and l among them. */
  lemma OtherSequences(s: ValidState, fs: seq<Option<nat>>, c: char)
    requires IsFinal(c) && c !in "ABCDdG`HfJK@PXLMrm"
    ensures Runs(s, fs, c, Done(s))
  {
    hide Runs, Valid, Leading;
    RunsCommand(s, fs, c);
  }
}
