/** The font object: glyph storage and offsets changed line by line, and the drawing loops. */
module FontRenderer {
  import opened Blocks
  import opened Options
  import opened Strings
  import opened Pixmaps
  import opened Fonts
  import Rendering

  class FontRenderer {
    const width: nat
    const height: nat
    const bytesPerRow: nat
    const glyphBytes: nat
    var glyphStorage: seq<bv8>
    var glyphOffsets: seq<nat>

    ghost function Abs(): Font
      reads this
    {
      Font(width, height, glyphStorage, glyphOffsets)
    }

    ghost predicate Valid()
      reads this
    {
      Abs().Valid() && bytesPerRow == Abs().BytesPerRow() && glyphBytes == Abs().GlyphBytes()
    }

    constructor (glyphWidth: nat, glyphHeight: nat)
      ensures Valid() && Abs() == NewFont(glyphWidth, glyphHeight)
    {
      RowStartIsProduct(glyphHeight, (glyphWidth + 7) / 8);
      width, height := glyphWidth, glyphHeight;
      bytesPerRow := (glyphWidth + 7) / 8;
      glyphBytes := glyphHeight * ((glyphWidth + 7) / 8);
      glyphStorage := [];
      glyphOffsets := Fill(CODEPOINTS, 0);
    }

    method GetGlyph(cp: nat) returns (glyph: Option<seq<bv8>>)
      requires Valid()
      ensures glyph == Abs().Glyph(cp)
    {
      hide RowStart;
      if cp >= |glyphOffsets| || glyphOffsets[cp] == 0 {
        return None;
      }
      var offset := glyphOffsets[cp] - 1;
      return Some(glyphStorage[offset..offset + glyphBytes]);
    }

    /** The digits before the colon, -1 as soon as one is none. */
    method ParseCodepoint(digits: string) returns (cp: int)
      ensures cp == if AllHex(digits) then HexValue(digits) else -1
    {
      var value: nat := 0;
      for i := 0 to |digits|
        invariant AllHex(digits[..i]) && value == HexValue(digits[..i])
      {
        var nibble := HexNibble(digits[i]);
        if nibble < 0 {
          return -1;
        }
        assert digits[..i + 1][..i] == digits[..i];
        value := value * 16 % 0x1_0000_0000 + nibble;
      }
      assert digits[..|digits|] == digits;
      return value;
    }

    method StripEnd(s: string) returns (t: string)
      ensures t == Stripped(s)
    {
      t := s;
      while t != "" && (t[|t| - 1] == '\r' || t[|t| - 1] == ' ')
        invariant Stripped(t) == Stripped(s)
        decreases |t|
      {
        t := t[..|t| - 1];
      }
    }

    /** The bitmap loop: the storage grows by a glyph, and shrinks again when a digit is bad. */
    method StoreBitmap(bits: string) returns (ok: bool)
      requires Valid() && |bits| >= 2 * glyphBytes
      modifies this`glyphStorage
      ensures ok == AllHex(bits[..2 * glyphBytes])
      ensures glyphStorage == old(glyphStorage) + if ok then HexBytes(bits[..2 * glyphBytes]) else []
    {
      hide RowStart, HexNibble, ByteOf;
      ghost var before := glyphStorage;
      var storeOffset := |glyphStorage|;
      glyphStorage := glyphStorage + Fill(glyphBytes, 0);
      for b := 0 to glyphBytes
        invariant AllHex(bits[..2 * b]) && |glyphStorage| == storeOffset + glyphBytes
        invariant glyphStorage[..storeOffset + b] == before + HexBytes(bits[..2 * b])
      {
        var hi := HexNibble(bits[b * 2]);
        var lo := HexNibble(bits[b * 2 + 1]);
        assert bits[..2 * (b + 1)] == bits[..2 * b] + [bits[2 * b], bits[2 * b + 1]];
        if hi < 0 || lo < 0 {
          glyphStorage := glyphStorage[..storeOffset];
          BadDigit(bits, if hi < 0 then 2 * b else 2 * b + 1, 2 * glyphBytes);
          return false;
        }
        MoreDigits(bits, b);
        glyphStorage := glyphStorage[storeOffset + b := ByteOf(hi, lo)];
      }
      return true;
    }

    lemma BadDigit(bits: string, i: nat, n: nat)
      requires i < n <= |bits| && HexNibble(bits[i]) < 0
      ensures !AllHex(bits[..n])
    {
      assert bits[..n][i] == bits[i];
    }

    lemma MoreDigits(bits: string, b: nat)
      requires 2 * b + 2 <= |bits| && AllHex(bits[..2 * b])
      requires HexNibble(bits[2 * b]) >= 0 && HexNibble(bits[2 * b + 1]) >= 0
      ensures AllHex(bits[..2 * (b + 1)])
      ensures HexBytes(bits[..2 * (b + 1)]) ==
              HexBytes(bits[..2 * b]) + [ByteOf(HexNibble(bits[2 * b]), HexNibble(bits[2 * b + 1]))]
    {
      hide HexNibble;
      assert bits[..2 * (b + 1)][..2 * b] == bits[..2 * b];
    }

    /** parse_hex_line: a rejected line, even one with a bad digit late in its bitmap, changes nothing. */
    method ParseHexLine(line: string) returns (ok: bool)
      requires Valid()
      modifies this
      ensures Valid() && ok == Accepts(line, glyphBytes) && Abs() == ParseLine(old(Abs()), line)
    {
      hide RowStart, Find, AllHex, Stripped, HexBytes, HexValue;
      var colonPos := Find(line, ':');
      if colonPos == |line| || colonPos == 0 {
        return false;
      }
      var codepoint := ParseCodepoint(line[..colonPos]);
      if codepoint < 0 || codepoint >= 65536 {
        return false;
      }
      var hexData := StripEnd(line[colonPos + 1..]);
      if |hexData| < 2 * glyphBytes {
        return false;
      }
      var storeOffset := |glyphStorage|;
      ok := StoreBitmap(hexData);
      if ok {
        glyphOffsets := glyphOffsets[codepoint := storeOffset + 1];
      }
    }

    method LoadHexData(content: string) returns (loaded: bool)
      requires Valid()
      modifies this
      ensures Valid() && Abs() == Load(old(Abs()), content).0 && loaded == (Load(old(Abs()), content).1 > 0)
    {
      hide RowStart, Find, ParseLine, Accepts, Load, From, AfterLine, HexNibble;
      var pos, total := 0, 0;
      FromIs(content, 0);
      while pos < |content|
        invariant Valid() && pos <= |content| + 1
        invariant Load(old(Abs()), content).0 == Load(Abs(), From(content, pos)).0
        invariant Load(old(Abs()), content).1 == total + Load(Abs(), From(content, pos)).1
        decreases |content| - pos
      {
        var eol := Find(content[pos..], '\n') + pos;
        var line := content[pos..eol];
        LineFrom(content, pos, eol);
        FromIs(content, pos);
        LoadLine(Abs(), From(content, pos));
        pos := eol + 1;
        if line != "" && line[0] != '#' {
          var ok := ParseHexLine(line);
          if ok {
            total := total + 1;
          }
        }
      }
      FromIs(content, pos);
      LoadNothing(Abs());
      return total > 0;
    }

    lemma LoadLine(f: Font, content: string)
      requires f.Valid() && content != ""
      ensures var line, rest := content[..Find(content, '\n')], AfterLine(content);
              Load(f, content) ==
              if Skipped(line) then Load(f, rest)
              else (Load(ParseLine(f, line), rest).0,
                    Load(ParseLine(f, line), rest).1 + if Accepts(line, f.GlyphBytes()) then 1 else 0)
    {
      hide Find, AfterLine, ParseLine, Accepts, RowStart;
    }

    lemma LoadNothing(f: Font)
      requires f.Valid()
      ensures Load(f, "") == (f, 0)
    {
      hide RowStart;
    }

    /** draw_char */
    method DrawChar(dst: OwnedPixmap, x: int, y: int, cp: nat, fg: bv8, bg: bv8) returns (drawn: bool)
      requires Valid() && dst.Valid()
      modifies dst
      ensures dst.Valid() && drawn == Abs().Glyph(cp).Some?
      ensures dst.Abs() == Rendering.DrawChar(old(dst.Abs()), Abs(), x, y, cp, fg, bg)
    {
      hide RowStart, Set, Rendering.Ink;
      var glyph := GetGlyph(cp);
      if glyph.None? {
        return false;
      }
      for r := 0 to height
        invariant dst.Valid()
        invariant dst.Abs() == Rendering.DrawRows(old(dst.Abs()), Abs(), glyph.value, x, y, r, fg, bg)
      {
        DrawGlyphRow(dst, glyph.value, x, y, r, fg, bg);
      }
      return true;
    }

    method DrawGlyphRow(dst: OwnedPixmap, data: seq<bv8>, x: int, y: int, r: nat, fg: bv8, bg: bv8)
      requires Valid() && dst.Valid() && |data| == glyphBytes && r < height
      modifies dst
      ensures dst.Valid()
      ensures dst.Abs() == Rendering.DrawRow(old(dst.Abs()), Abs(), data, x, y, r, width, fg, bg)
    {
      hide RowStart, Set, Rendering.Bit;
      RowStartIsProduct(r, bytesPerRow);
      RowsApart(r, height, bytesPerRow);
      var rowBytes := data[r * bytesPerRow..r * bytesPerRow + bytesPerRow];
      for c := 0 to width
        invariant dst.Valid()
        invariant dst.Abs() == Rendering.DrawRow(old(dst.Abs()), Abs(), data, x, y, r, c, fg, bg)
      {
        var isFg := Rendering.Bit(rowBytes[c / 8], c);
        dst.SetPixel(x + c, y + r, if isFg then fg else bg);
      }
    }
  }
}
