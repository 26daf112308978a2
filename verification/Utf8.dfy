/**
  UTF-8 decoding (utf8_to_ucs2 of terminal.c) and the encoding of RFC 3629 it undoes, for the code points of one
  to three bytes.
  */
module Utf8 {

  type Byte = b: nat | b < 256

  /** A character and the bytes it took; -1 and 0 for a NUL, a stray byte or a sequence cut short. */
  datatype Decoded = Decoded(code: int, length: nat)

  const FAILED: Decoded := Decoded(-1, 0)

  /** Byte k of a NUL-terminated string. */
  function At(s: seq<Byte>, k: nat): Byte { if k < |s| then s[k] else 0 }

  /**
    utf8_to_ucs2. A lead byte from 0xE0 on is taken for three bytes and one from 0xC0 on for two; the low
    bits are cut out by masks: & 0x0F is % 16, & 0x1F is % 32 and & 0x3F is % 64.
    */
  function Decode(s: seq<Byte>): (d: Decoded)
    ensures d == FAILED || (0 <= d.code < 0x10000 && 1 <= d.length <= 3)
    ensures 0 !in s ==> d.length <= |s|
  {
    if At(s, 0) == 0 then FAILED
    else if At(s, 0) < 0x80 then Decoded(At(s, 0), 1)
    else if At(s, 0) >= 0xE0 then
      if At(s, 1) == 0 || At(s, 2) == 0 then FAILED
      else Decoded(At(s, 0) % 16 * 0x1000 + At(s, 1) % 64 * 0x40 + At(s, 2) % 64, 3)
    else if At(s, 0) >= 0xC0 then
      if At(s, 1) == 0 then FAILED
      else Decoded(At(s, 0) % 32 * 0x40 + At(s, 1) % 64, 2)
    else FAILED
  }

  /** Calling utf8_to_ucs2 until it fails: the characters, and the bytes it leaves. */
  function DecodeAll(s: seq<Byte>): (r: (seq<int>, seq<Byte>))
    requires 0 !in s
    decreases |s|
  {
    var d := Decode(s);
    if d == FAILED then ([], s)
    else
      var (rest, left) := DecodeAll(s[d.length..]);
      ([d.code] + rest, left)
  }

  /** The code points of one to three bytes, without the NUL that ends a string. */
  type CodePoint = c: int | 0 < c < 0x10000 witness 1

  /** Section 3 of RFC 3629. */
  function Encode(c: CodePoint): (s: seq<Byte>)
    ensures 1 <= |s| <= 3
  {
    if c < 0x80 then [c]
    else if c < 0x800 then [0xC0 + c / 64, 0x80 + c % 64]
    else [0xE0 + c / 0x1000, 0x80 + c / 64 % 64, 0x80 + c % 64]
  }

  function EncodeAll(cs: seq<CodePoint>): seq<Byte> {
    if cs == [] then [] else Encode(cs[0]) + EncodeAll(cs[1..])
  }

  lemma DecodeEncoded(c: CodePoint, rest: seq<Byte>)
    ensures Decode(Encode(c) + rest) == Decoded(c, |Encode(c)|)
    ensures 0 !in Encode(c)
  {
    var s := Encode(c) + rest;
    assert At(s, 0) == Encode(c)[0];
    if c >= 0x800 {
      assert At(s, 1) == Encode(c)[1] && At(s, 2) == Encode(c)[2];
      Digits64(c);
    } else if c >= 0x80 {
      assert At(s, 1) == Encode(c)[1];
      Digits64(c);
    }
  }

  /** A code point and its groups of six bits. */
  lemma Digits64(c: CodePoint)
    ensures c == c / 0x1000 * 0x1000 + c / 64 % 64 * 64 + c % 64
    ensures (0xE0 + c / 0x1000) % 16 == c / 0x1000
    ensures c < 0x800 ==> c / 64 < 32 && c / 64 % 64 == c / 64 && (0xC0 + c / 64) % 32 == c / 64
    ensures (0x80 + c / 64 % 64) % 64 == c / 64 % 64 && (0x80 + c % 64) % 64 == c % 64
  {
  }

  lemma {:induction false} EncodedHasNoNul(cs: seq<CodePoint>)
    ensures 0 !in EncodeAll(cs)
  {
    if cs != [] {
      DecodeEncoded(cs[0], EncodeAll(cs[1..]));
      EncodedHasNoNul(cs[1..]);
    }
  }

  /** Decoding undoes encoding, and consumes every byte; so no two sequences have the same encoding. */
  lemma {:induction false} DecodeAllUndoesEncodeAll(cs: seq<CodePoint>)
    ensures 0 !in EncodeAll(cs) && DecodeAll(EncodeAll(cs)) == (cs, [])
  {
    EncodedHasNoNul(cs);
    if cs != [] {
      DecodeEncoded(cs[0], EncodeAll(cs[1..]));
      DecodeAllUndoesEncodeAll(cs[1..]);
      assert EncodeAll(cs)[|Encode(cs[0])|..] == EncodeAll(cs[1..]);
      var whole: seq<int> := [cs[0]] + cs[1..];
      assert whole == cs;
    }
  }

  /** A character cut short at the end of the input fails and consumes nothing, so it can be completed later. */
  lemma CutShortFails(c: CodePoint, n: nat)
    requires n < |Encode(c)|
    ensures Decode(Encode(c)[..n]) == FAILED
  {
  }

  /** A continuation byte in the place of a lead byte fails, whatever follows. */
  lemma StrayByteFails(s: seq<Byte>)
    requires s != [] && 0x80 <= s[0] < 0xC0
    ensures Decode(s) == FAILED
  {
  }

  /** Beyond RFC 3629: overlong forms are read, whatever bytes follow the lead byte. */
  lemma OverlongRead(b: Byte, c: Byte, d: Byte)
    requires c != 0 && d != 0
    ensures 0xC0 <= b < 0xC2 ==> Decode([b, c, d]) == Decoded(b % 2 * 64 + c % 64, 2)
    ensures b == 0xE0 ==> Decode([b, c, d]) == Decoded(c % 64 * 64 + d % 64, 3)
  {
  }

  /**
    Beyond RFC 3629: a lead byte of four is read as one of three, so a code point outside the basic plane
    comes out as another character and a stray byte is left over.
    */
  lemma FourBytesMisread(b: Byte, c: Byte, d: Byte, e: Byte)
    requires 0xF0 <= b < 0xF8 && 0x80 <= c < 0xC0 && 0x80 <= d < 0xC0 && 0x80 <= e < 0xC0
    ensures Decode([b, c, d, e]) == Decode([b - 0x10, c, d]) && Decode([b, c, d, e][3..]) == FAILED
  {
  }
}
