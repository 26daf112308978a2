/** Hex fonts (graphics/font_renderer.hpp): loading them, looking glyphs up, and drawing one. */
module Fonts {
  import opened Blocks
  import opened Options
  import opened Strings

  const CODEPOINTS: nat := 65536

  /** offsets[cp] is 0 for a missing glyph and one more than its place in the storage for a loaded one. */
  datatype Font = Font(width: nat, height: nat, storage: seq<bv8>, offsets: seq<nat>) {

    function BytesPerRow(): nat { (width + 7) / 8 }

    function GlyphBytes(): nat { RowStart(height, BytesPerRow()) }

    /** Every offset denotes a whole glyph inside the storage. */
    ghost predicate Valid() {
      && |offsets| == CODEPOINTS
      && forall cp :: 0 <= cp < |offsets| && offsets[cp] != 0 ==> offsets[cp] - 1 + GlyphBytes() <= |storage|
    }

    function Glyph(cp: nat): (g: Option<seq<bv8>>)
      requires Valid()
      ensures g.Some? ==> |g.value| == GlyphBytes()
    {
      if cp >= |offsets| || offsets[cp] == 0 then None
      else Some(storage[offsets[cp] - 1..offsets[cp] - 1 + GlyphBytes()])
    }
  }

  type ValidFont = f: Font | f.Valid()
    ghost witness NewFont(0, 0)

  function NewFont(width: nat, height: nat): (f: Font)
    ensures f.Valid() && forall cp: nat :: f.Glyph(cp) == None
  {
    Font(width, height, [], Fill(CODEPOINTS, 0))
  }

  /** hex_nibble: -1 for anything but a hexadecimal digit. */
  function HexNibble(c: char): (n: int)
    ensures -1 <= n < 16
  {
    if '0' <= c <= '9' then c as int - '0' as int
    else if 'a' <= c <= 'f' then c as int - 'a' as int + 10
    else if 'A' <= c <= 'F' then c as int - 'A' as int + 10
    else -1
  }

  predicate IsHex(c: char) { HexNibble(c) >= 0 }

  predicate AllHex(s: string) { forall i :: 0 <= i < |s| ==> IsHex(s[i]) }

  /** The value of a codepoint's digits, in 32 bits. */
  function HexValue(s: string): (v: nat)
    requires AllHex(s)
    ensures v < 0x1_0000_0000
  {
    if s == "" then 0
    else HexValue(s[..|s| - 1]) * 16 % 0x1_0000_0000 + HexNibble(s[|s| - 1])
  }

  /** The number the digits spell. */
  function Spelled(s: string): nat
    requires AllHex(s)
  {
    if s == "" then 0 else Spelled(s[..|s| - 1]) * 16 + HexNibble(s[|s| - 1])
  }

  /** Digits beyond the eighth from the right are lost. */
  lemma {:induction false} HexValueWraps(s: string)
    requires AllHex(s)
    ensures HexValue(s) == Spelled(s) % 0x1_0000_0000
  {
    hide HexNibble;
    if s != "" {
      HexValueWraps(s[..|s| - 1]);
      ShiftIn(Spelled(s[..|s| - 1]), HexNibble(s[|s| - 1]));
    }
  }

  lemma ShiftIn(v: nat, n: int)
    requires 0 <= n < 16
    ensures (v * 16 + n) % 0x1_0000_0000 == v % 0x1_0000_0000 * 16 % 0x1_0000_0000 + n
  {
    var low := v % 0x1000_0000;
    assert v == v / 0x1000_0000 * 0x1000_0000 + low;
    assert v % 0x1_0000_0000 * 16 % 0x1_0000_0000 == low * 16;
  }

  /** (hi << 4) | lo */
  function ByteOf(hi: int, lo: int): bv8
    requires 0 <= hi < 16 && 0 <= lo < 16
  {
    ((hi as bv8) << 4) | (lo as bv8)
  }

  /** The bytes a string of hexadecimal digits spells. */
  function HexBytes(s: string): (bytes: seq<bv8>)
    requires AllHex(s) && |s| % 2 == 0
    ensures |bytes| == |s| / 2
  {
    if s == "" then []
    else HexBytes(s[..|s| - 2]) + [ByteOf(HexNibble(s[|s| - 2]), HexNibble(s[|s| - 1]))]
  }

  /** The bitmap part of a line without the carriage returns and blanks at its end. */
  function Stripped(s: string): (t: string)
    ensures t <= s
  {
    if s != "" && (s[|s| - 1] == '\r' || s[|s| - 1] == ' ') then Stripped(s[..|s| - 1]) else s
  }

  /** The lines parse_hex_line takes, for glyphs of n bytes. */
  predicate Accepts(line: string, n: nat) {
    var colon := Find(line, ':');
    && 0 < colon < |line|
    && AllHex(line[..colon]) && HexValue(line[..colon]) < CODEPOINTS
    && var bits := Stripped(line[colon + 1..]); |bits| >= 2 * n && AllHex(bits[..2 * n])
  }

  lemma HexDigitsAre(c: char)
    ensures IsHex(c) <==> c in "0123456789abcdefABCDEF"
  {
  }

  /** The parts of a line that is taken. */
  ghost predicate IsLine(line: string, digits: string, bits: string, rest: string, n: nat) {
    && line == digits + ":" + (bits + rest)
    && digits != "" && AllHex(digits) && HexValue(digits) < CODEPOINTS
    && |bits| == 2 * n && AllHex(bits)
  }

  /** A line is taken exactly when it is a codepoint, a colon, the digits of a bitmap, and anything after them. */
  lemma AcceptsExactly(line: string, n: nat)
    ensures Accepts(line, n) <==> exists digits, bits, rest :: IsLine(line, digits, bits, rest, n)
  {
    hide HexNibble, HexValue;
    if Accepts(line, n) {
      var colon := Find(line, ':');
      var tail := line[colon + 1..];
      assert Stripped(tail)[..2 * n] == tail[..2 * n];
      assert line == line[..colon] + ":" + (tail[..2 * n] + tail[2 * n..]);
      assert IsLine(line, line[..colon], tail[..2 * n], tail[2 * n..], n);
    }
    if digits, bits, rest :| IsLine(line, digits, bits, rest, n) {
      AcceptsParts(line, digits, bits, rest, n);
    }
  }

  lemma AcceptsParts(line: string, digits: string, bits: string, rest: string, n: nat)
    requires IsLine(line, digits, bits, rest, n)
    ensures Accepts(line, n)
  {
    hide HexValue, Find, Stripped;
    AllHexConcat(digits, bits);
    FindFirst(digits, ':', bits + rest);
    HexNotStripped(bits, rest);
    assert line[..|digits|] == digits && line[|digits| + 1..] == bits + rest;
    assert Stripped(bits + rest)[..2 * n] == bits;
  }

  function LineCodepoint(line: string, n: nat): (cp: nat)
    requires Accepts(line, n)
    ensures cp < CODEPOINTS
  {
    HexValue(line[..Find(line, ':')])
  }

  function LineBitmap(line: string, n: nat): (bitmap: seq<bv8>)
    requires Accepts(line, n)
    ensures |bitmap| == n
  {
    HexBytes(Stripped(line[Find(line, ':') + 1..])[..2 * n])
  }

  /** parse_hex_line */
  function ParseLine(f: ValidFont, line: string): (f': ValidFont)
    ensures f' == f.(storage := f'.storage, offsets := f'.offsets)
  {
    var n := f.GlyphBytes();
    if Accepts(line, n) then
      f.(storage := f.storage + LineBitmap(line, n), offsets := f.offsets[LineCodepoint(line, n) := |f.storage| + 1])
    else f
  }

  /** The lines load_hex_data skips. */
  predicate Skipped(line: string) { line == "" || line[0] == '#' }

  /** load_hex_data, with the number of glyphs it loads. */
  function Load(f: ValidFont, content: string): (r: (Font, nat))
    ensures r.0.Valid() && r.0 == f.(storage := r.0.storage, offsets := r.0.offsets)
    decreases |content|
  {
    if content == "" then (f, 0)
    else
      var line := content[..Find(content, '\n')];
      if Skipped(line) then Load(f, AfterLine(content))
      else
        var (f', n) := Load(ParseLine(f, line), AfterLine(content));
        (f', if Accepts(line, f.GlyphBytes()) then n + 1 else n)
  }

  /** A line changes the glyph of its own codepoint and no other. */
  lemma GlyphAfterLine(f: ValidFont, line: string, cp: nat)
    ensures ParseLine(f, line).Glyph(cp) ==
            if Accepts(line, f.GlyphBytes()) && cp == LineCodepoint(line, f.GlyphBytes())
            then Some(LineBitmap(line, f.GlyphBytes()))
            else f.Glyph(cp)
  {
    hide Accepts, LineBitmap, LineCodepoint, RowStart;
    var n, f' := f.GlyphBytes(), ParseLine(f, line);
    if Accepts(line, n) {
      var bitmap := LineBitmap(line, n);
      assert (f.storage + bitmap)[|f.storage|..|f.storage| + n] == bitmap;
      if cp < |f.offsets| && f.offsets[cp] != 0 {
        var from := f.offsets[cp] - 1;
        assert (f.storage + bitmap)[from..from + n] == f.storage[from..from + n];
      }
    }
  }

  // Printing a font.

  /** A digit, in upper or in lower case. */
  function HexChar(n: int, upper: bool): (c: char)
    requires 0 <= n < 16
    ensures HexNibble(c) == n && c != ':' && c != '\n' && c != '#' && c != '\r' && c != ' '
  {
    if n < 10 then '0' + n as char else (if upper then 'A' else 'a') + (n - 10) as char
  }

  function HexDigits(value: nat, digits: nat, upper: bool): (s: string)
    ensures |s| == digits
  {
    if digits == 0 then "" else HexDigits(value / 16, digits - 1, upper) + [HexChar(value % 16, upper)]
  }

  function HexText(bytes: seq<bv8>, upper: bool): (s: string)
    ensures |s| == 2 * |bytes|
  {
    if bytes == [] then ""
    else HexText(bytes[..|bytes| - 1], upper) + HexByte(bytes[|bytes| - 1], upper)
  }

  function HexByte(b: bv8, upper: bool): (s: string)
    ensures |s| == 2
  {
    [HexChar((b >> 4) as int, upper), HexChar((b & 0x0F) as int, upper)]
  }

  /** A line of a font: a codepoint, its bitmap, their case, and anything after them. */
  datatype Entry = Entry(cp: nat, bitmap: seq<bv8>, upper: bool, ending: string)

  predicate Printable(e: Entry, n: nat) {
    e.cp < CODEPOINTS && |e.bitmap| == n && '\n' !in e.ending
  }

  function PrintLine(e: Entry): string {
    HexDigits(e.cp, 4, e.upper) + ":" + HexText(e.bitmap, e.upper) + e.ending
  }

  function PrintFont(entries: seq<Entry>): string {
    if entries == [] then "" else PrintLine(entries[0]) + "\n" + PrintFont(entries[1..])
  }

  lemma {:induction false} HexNotStripped(s: string, ending: string)
    requires AllHex(s)
    ensures s <= Stripped(s + ending)
    decreases |ending|
  {
    if ending != "" {
      assert (s + ending)[..|s + ending| - 1] == s + ending[..|ending| - 1];
      HexNotStripped(s, ending[..|ending| - 1]);
    } else {
      assert s + ending == s;
      assert s != "" ==> IsHex(s[|s| - 1]);
    }
  }

  lemma AllHexConcat(a: string, b: string)
    requires AllHex(a) && AllHex(b)
    ensures AllHex(a + b)
    ensures forall i :: 0 <= i < |a| ==> a[i] !in ":#\r\n "
  {
  }

  /** Four digits spell any codepoint. */
  lemma {:induction false} HexDigitsValue(value: nat, digits: nat, upper: bool)
    requires digits <= 4 && value < Power16(digits)
    ensures AllHex(HexDigits(value, digits, upper)) && HexValue(HexDigits(value, digits, upper)) == value
  {
    hide AllHex, HexNibble, Power16;
    DropDigit(value, digits);
    if digits > 0 {
      var s := HexDigits(value / 16, digits - 1, upper);
      HexDigitsValue(value / 16, digits - 1, upper);
      HexCharIsHex(value % 16, upper);
      AllHexConcat(s, [HexChar(value % 16, upper)]);
      assert HexDigits(value, digits, upper)[..digits - 1] == s;
    } else {
      NoDigits();
    }
  }

  lemma DropDigit(value: nat, digits: nat)
    requires digits <= 4 && value < Power16(digits)
    ensures digits == 0 ==> value == 0
    ensures digits > 0 ==>
              value / 16 < Power16(digits - 1) && value / 16 * 16 % 0x1_0000_0000 + value % 16 == value
  {
    assert Power16(1) == 16 && Power16(2) == 256 && Power16(3) == 4096 && Power16(4) == 65536;
  }

  lemma HexCharIsHex(n: int, upper: bool)
    requires 0 <= n < 16
    ensures AllHex([HexChar(n, upper)])
  {
  }

  lemma NoDigits()
    ensures AllHex("")
  {
  }

  function Power16(n: nat): nat { if n == 0 then 1 else 16 * Power16(n - 1) }

  lemma NibblesOfByte(b: bv8)
    ensures 0 <= (b >> 4) as int < 16 && 0 <= (b & 0x0F) as int < 16
    ensures ByteOf((b >> 4) as int, (b & 0x0F) as int) == b
  {
  }

  lemma HexByteValue(b: bv8, upper: bool)
    ensures AllHex(HexByte(b, upper)) && ByteOf(HexNibble(HexByte(b, upper)[0]), HexNibble(HexByte(b, upper)[1])) == b
  {
    hide HexNibble, HexChar, ByteOf;
    NibblesOfByte(b);
  }

  lemma {:induction false} HexTextBytes(bytes: seq<bv8>, upper: bool)
    ensures AllHex(HexText(bytes, upper)) && HexBytes(HexText(bytes, upper)) == bytes
  {
    hide HexNibble, ByteOf, HexByte, AllHex;
    if bytes != [] {
      var rest, b := bytes[..|bytes| - 1], bytes[|bytes| - 1];
      HexTextBytes(rest, upper);
      HexByteValue(b, upper);
      AllHexConcat(HexText(rest, upper), HexByte(b, upper));
      assert HexText(bytes, upper)[..|HexText(bytes, upper)| - 2] == HexText(rest, upper);
    } else {
      NoDigits();
    }
  }

  /** A printed line is accepted, for its codepoint and its bitmap. */
  lemma PrintedLine(e: Entry, n: nat)
    requires Printable(e, n)
    ensures Accepts(PrintLine(e), n)
    ensures LineCodepoint(PrintLine(e), n) == e.cp && LineBitmap(PrintLine(e), n) == e.bitmap
    ensures !Skipped(PrintLine(e)) && '\n' !in PrintLine(e)
  {
    hide HexDigits, HexText, HexValue, HexBytes, Stripped, Find;
    var digits, bits, line := HexDigits(e.cp, 4, e.upper), HexText(e.bitmap, e.upper), PrintLine(e);
    HexDigitsValue(e.cp, 4, e.upper);
    HexTextBytes(e.bitmap, e.upper);
    AllHexConcat(digits, bits);
    AllHexConcat(bits, digits);
    assert line == digits + ":" + (bits + e.ending);
    FindFirst(digits, ':', bits + e.ending);
    HexNotStripped(bits, e.ending);
    assert line[..4] == digits && line[5..] == bits + e.ending;
    assert Stripped(bits + e.ending)[..2 * n] == bits;
    assert line[0] == digits[0];
  }

  /** The lines of `entries` that give a bitmap for cp, from the last one. */
  predicate LastFor(entries: seq<Entry>, i: nat, cp: nat) {
    && i < |entries| && entries[i].cp == cp
    && forall j :: i < j < |entries| ==> entries[j].cp != cp
  }

  /**
    Loading a printed font gives every codepoint the last bitmap printed for it and leaves the glyphs of
    all others as they were.
    */
  lemma {:induction false} LoadPrinted(f: Font, entries: seq<Entry>, cp: nat)
    requires f.Valid() && forall e :: e in entries ==> Printable(e, f.GlyphBytes())
    ensures Load(f, PrintFont(entries)).1 == |entries|
    ensures forall i: nat :: LastFor(entries, i, cp) ==>
              Load(f, PrintFont(entries)).0.Glyph(cp) == Some(entries[i].bitmap)
    ensures (forall i :: 0 <= i < |entries| ==> entries[i].cp != cp) ==>
              Load(f, PrintFont(entries)).0.Glyph(cp) == f.Glyph(cp)
    decreases |entries|
  {
    hide Accepts, LineBitmap, LineCodepoint, RowStart, PrintLine, ParseLine, Find, Skipped;
    if entries != [] {
      var line, rest := PrintLine(entries[0]), PrintFont(entries[1..]);
      var f1 := ParseLine(f, line);
      PrintedLine(entries[0], f.GlyphBytes());
      FindFirst(line, '\n', rest);
      assert (line + "\n" + rest)[..|line|] == line && (line + "\n" + rest)[|line| + 1..] == rest;
      GlyphAfterLine(f, line, cp);
      LoadPrinted(f1, entries[1..], cp);
      LastOfRest(entries, cp);
    }
  }

  /** Later entries for cp hide the first one. */
  lemma LastOfRest(entries: seq<Entry>, cp: nat)
    requires entries != []
    ensures forall i: nat :: i > 0 && LastFor(entries, i, cp) ==> LastFor(entries[1..], i - 1, cp)
    ensures LastFor(entries, 0, cp) ==>
              entries[0].cp == cp && forall i :: 0 <= i < |entries[1..]| ==> entries[1..][i].cp != cp
  {
  }
}
