/** The parameter fields of a control sequence, written out and read back. */
module Parameters {
  import opened Decimal
  import opened Options
  import opened ControlCharacters

  /** Parameter fields, None where a field is left empty, with semicolons between them. */
  function Fields(fs: seq<Option<nat>>): (s: string)
    ensures IsParams(s)
  {
    if fs == [] then ""
    else if |fs| == 1 then Field(fs[0])
    else Field(fs[0]) + (";" + Fields(fs[1..]))
  }

  function Field(f: Option<nat>): (s: string)
    ensures AllDigits(s)
  {
    if f.Some? then Print(f.value) else ""
  }

  /** What follows the first field. */
  function AfterField(fs: seq<Option<nat>>): string {
    if |fs| <= 1 then "" else ";" + Fields(fs[1..])
  }

  function First(fs: seq<Option<nat>>): Option<nat> { if fs == [] then None else fs[0] }

  lemma FieldsSplit(fs: seq<Option<nat>>)
    ensures Fields(fs) == Field(First(fs)) + AfterField(fs)
  {
    assert Field(None) == "";
    if |fs| <= 1 {
      assert Fields(fs) + "" == Fields(fs);
    }
  }

  lemma SliceSplit(s: string, i: nat, a: string, b: string)
    requires i <= |s| && s[i..] == a + b
    ensures i + |a| <= |s| && s[i..i + |a|] == a && s[i + |a|..] == b
  {
    assert s[i..i + |a|] == s[i..][..|a|];
    assert s[i + |a|..] == s[i..][|a|..];
  }

  /** The digits of the first field are read where the fields begin. */
  lemma ReadField(s: string, i: nat, fs: seq<Option<nat>>)
    requires i <= |s| && s[i..] == Fields(fs)
    ensures var e := DigitsEnd(s, i);
            && (if First(fs).Some? then e > i && Value(s[i..e]) == First(fs).value else e == i)
            && (|fs| <= 1 ==> e == |s|)
            && (|fs| > 1 ==> e < |s| && s[e + 1..] == Fields(fs[1..]))
  {
    hide Fields, Value, DigitsEnd, Print;
    var f, e := First(fs), i + |Field(First(fs))|;
    FieldsSplit(fs);
    SliceSplit(s, i, Field(f), AfterField(fs));
    if |fs| > 1 {
      SliceSplit(s, e, ";", Fields(fs[1..]));
      assert s[e] == s[e..e + 1][0] == ';';
    }
    DigitsEndAt(s, i, e);
    if f.Some? {
      ValueOfPrint(f.value);
    }
  }
}
