/** The tracker as an object: an eight-character buffer and a bit-packed length. */
module HelpTracker {
  import opened HelpAutomaton

  // The bits of len_.

  const FLAG_ESCAPE: bv8 := 0x80
  const FLAG_CSI: bv8 := 0x40
  const FLAG_MASK: bv8 := 0xC0
  const LEN_MASK: bv8 := 0x0F

  /** The lengths that occur: at most 7 without a flag, 0 with one. */
  predicate ValidLen(len: bv8) { len <= 7 || len == FLAG_ESCAPE || len == FLAG_CSI }

  lemma LenBits(len: bv8)
    requires ValidLen(len)
    ensures len <= 7 ==> len & FLAG_MASK == 0 && len & LEN_MASK == len
    ensures len == FLAG_ESCAPE ==> len & FLAG_MASK == FLAG_ESCAPE && len & LEN_MASK == 0
    ensures len == FLAG_CSI ==> len & FLAG_MASK == FLAG_CSI && len & LEN_MASK == 0
  {
  }

  /** The text a length and a buffer stand for. */
  function Decoded(len: bv8, buffer: seq<char>): (t: Tracker)
    requires ValidLen(len) && |buffer| == BUFFER
    ensures WellFormed(t)
  {
    if len == FLAG_ESCAPE then Escape else if len == FLAG_CSI then Csi else Typing(buffer[..len as nat])
  }

  class HelpCommandTracker {
    var buffer: array<char>
    var len: bv8

    ghost predicate Valid()
      reads this
    {
      buffer.Length == BUFFER && ValidLen(len)
    }

    ghost function Abs(): Tracker
      requires Valid()
      reads this, buffer
    {
      Decoded(len, buffer[..])
    }

    constructor ()
      ensures Valid() && Abs() == Typing("") && fresh(buffer)
    {
      buffer := new char[8](_ => '\0');
      len := 0;
    }

    method Reset()
      requires Valid()
      modifies this`len, buffer
      ensures Valid() && Abs() == Typing("")
    {
      len := 0;
      buffer[0] := '\0';
    }

    method CurrentText() returns (text: string)
      requires Valid()
      ensures text == if Abs().Typing? then Abs().text else ""
    {
      LenBits(len);
      text := buffer[..(len & LEN_MASK) as nat];
    }

    method AppendChar(c: char)
      requires Valid() && Abs().Typing?
      modifies this`len, buffer
      ensures Valid() && Abs() == Typing(Append(old(Abs()).text, c))
    {
      LenBits(len);
      var l := (len & LEN_MASK) as nat;
      if l < 7 {
        buffer[l] := c;
        len := (len & LEN_MASK) + 1;
        buffer[len as nat] := '\0';
        return;
      }
      buffer[0] := '~';
      len := 7;
    }

    method HandleBackspace()
      requires Valid() && Abs().Typing?
      modifies this`len, buffer
      ensures Valid()
      ensures Abs() == Next(old(Abs()), '\U{08}') == Next(old(Abs()), '\U{7F}')
    {
      LenBits(len);
      var l := len & LEN_MASK;
      if l == 0 {
        return;
      }
      l := l - 1;
      len := l;
      buffer[l as nat] := '\0';
    }

    method CheckAndReset() returns (matched: bool)
      requires Valid()
      modifies this`len, buffer
      ensures Valid() && Abs() == Typing("") && matched == (old(Abs()) == Typing("help"))
    {
      var text := CurrentText();
      matched := text == "help";
      Reset();
    }

    method ProcessEscapeChar(c: char)
      requires Valid() && !Abs().Typing?
      modifies this`len, buffer
      ensures Valid() && Abs() == Next(old(Abs()), c)
    {
      LenBits(len);
      var flags := len & FLAG_MASK;
      if c == '\r' || c == '\n' {
        Reset();
      } else if flags == FLAG_ESCAPE {
        if c == '[' {
          len := FLAG_CSI;
        } else {
          Reset();
        }
      } else if 0x40 <= c as int <= 0x7E {
        Reset();
      }
    }

    method ProcessChar(c: char) returns (fired: bool)
      requires Valid()
      modifies this`len, buffer
      ensures Valid() && Abs() == Next(old(Abs()), c) && fired == Fires(old(Abs()), c)
    {
      LenBits(len);
      var flags := len & FLAG_MASK;
      if flags != 0 {
        ProcessEscapeChar(c);
        return false;
      }
      if c == '\U{1B}' {
        len := FLAG_ESCAPE;
        buffer[0] := '\0';
        return false;
      }
      if c == '\r' || c == '\n' {
        fired := CheckAndReset();
        return;
      }
      if c == '\U{7F}' || c == '\U{08}' {
        HandleBackspace();
        return false;
      }
      if c as int < 32 && c != '\r' && c != '\n' {
        Reset();
        return false;
      }
      AppendChar(c);
      return false;
    }

    /** feed */
    method FeedAll(s: string) returns (triggered: bool)
      requires Valid()
      modifies this`len, buffer
      ensures Valid() && Abs() == Feed(old(Abs()), s).0 && triggered == Feed(old(Abs()), s).1
    {
      hide Next, Fires, Decoded;
      triggered := false;
      assert s[0..] == s;
      for i := 0 to |s|
        invariant Valid()
        invariant Feed(old(Abs()), s).0 == Feed(Abs(), s[i..]).0
        invariant Feed(old(Abs()), s).1 == (triggered || Feed(Abs(), s[i..]).1)
      {
        assert s[i..][1..] == s[i + 1..];
        var fired := ProcessChar(s[i]);
        triggered := fired || triggered;
      }
    }
  }
}
