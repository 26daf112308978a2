/** How the legacy engine cuts its byte stream into tokens and carries unused bytes over to the next read. */
module LegacyStream {
  import opened Strings
  import opened ControlCharacters
  import opened LegacyTerminal
  import opened LegacyCommands

  // page_append, the scanning part of do_csi, and term_screen of terminal.c, in 8-bit mode.

  /** The first position from i on that holds neither a digit nor a semicolon. */
  function ParamsEnd(buf: string, i: nat): (e: nat)
    requires i <= |buf|
    ensures i <= e <= |buf|
    ensures forall k :: i <= k < e ==> IsParam(buf[k])
    ensures e < |buf| ==> !IsParam(buf[e])
    decreases |buf| - i
  {
    if i < |buf| && IsParam(buf[i]) then ParamsEnd(buf, i + 1) else i
  }

  lemma {:induction false} ParamsEndAt(buf: string, i: nat, e: nat)
    requires i <= e < |buf| && (forall k :: i <= k < e ==> IsParam(buf[k])) && !IsParam(buf[e])
    ensures ParamsEnd(buf, i) == e
    decreases e - i
  {
    if i < e {
      ParamsEndAt(buf, i + 1, e);
    }
  }

  datatype Lexed =
    | Complete(t: Token, len: nat)
    | Incomplete        // more bytes are needed
    | PastEnd           // ESC # at the end of the buffer: the scan goes past the terminator

  predicate IsPrivateMark(c: char) { c in {'<', '=', '>', '?'} }

  /** The token at the start of the buffer. The end of buf is where the terminating NUL stands. */
  function Lex(buf: string): (r: Lexed)
    requires |buf| > 0
    ensures r.Complete? ==> 1 <= r.len <= |buf|
  {
    if buf[0] != ESC then Complete(Plain(buf[0]), 1)
    else if |buf| == 1 then Incomplete
    else if buf[1] == '[' then
      if |buf| == 2 then Incomplete else
      var marked := IsPrivateMark(buf[2]);
      var base := if marked then 3 else 2;
      var end := ParamsEnd(buf, base);
      if end == |buf| then Incomplete
      else Complete(Csi(buf[end], if marked then buf[2] else ' ', buf[base..end]), end + 1)
    else if buf[1] in {'(', ')'} then
      if |buf| == 2 then Incomplete else Complete(Charset(buf[1], buf[2]), 3)
    else if buf[1] == '#' then
      if |buf| == 2 then PastEnd else Complete(Dec(buf[2]), 3)
    else Complete(Escape(buf[1]), 2)
  }

  /** The bytes of a C string, up to the NUL that ends it. */
  type Text = s: string | NUL !in s

  /** Stopped: the state reached and the bytes left over. */
  datatype Progress =
    | Stopped(s: ValidState, rest: Text)
    | OutsidePage      // a command indexed cells past the page
    | PastBuffer       // the scan left the buffer

  /** The C string in a buffer: what comes before the first NUL. */
  function CString(buf: string): (s: Text)
    ensures |s| <= |buf| && s == buf[..|s|]
    ensures |s| < |buf| ==> buf[|s|] == NUL
  {
    if buf == [] || buf[0] == NUL then [] else
    assert buf == [buf[0]] + buf[1..];
    [buf[0]] + CString(buf[1..])
  }

  /** page_append on the bytes before the NUL. */
  function Pass(s: ValidState, text: Text): Progress
    decreases |text|
  {
    if text == [] then Stopped(s, [])
    else
      match Lex(text)
      case Incomplete => Stopped(s, text)
      case PastEnd => PastBuffer
      case Complete(t, len) =>
        match Step(s, t)
        case Outside => OutsidePage
        case Done(s1) => Pass(s1, text[len..])
  }

  /** page_append on a buffer: it stops at the first NUL. */
  function Append(s: ValidState, buf: string): Progress
  {
    Pass(s, CString(buf))
  }

  /** A pass keeps the size of the page. */
  lemma {:induction false} PassKeepsSize(s: ValidState, text: Text)
    ensures Pass(s, text).Stopped? ==> Pass(s, text).s.rows == s.rows && Pass(s, text).s.cols == s.cols
    decreases |text|
  {
    hide Step, Lex, Valid;
    if text != [] && Lex(text).Complete? {
      StepKeepsSize(s, Lex(text).t);
      if Step(s, Lex(text).t).Done? {
        PassKeepsSize(Step(s, Lex(text).t).s, text[Lex(text).len..]);
      }
    }
  }

  /** What is complete stays what it is, whatever comes after it. */
  lemma LexExtends(a: string, b: string)
    requires |a| > 0
    ensures Lex(a).Complete? ==> Lex(a + b) == Lex(a)
  {
    if Lex(a).Complete? && a[0] == ESC && a[1] == '[' {
      var base := if IsPrivateMark(a[2]) then 3 else 2;
      ParamsEndExtends(a, b, base);
      assert (a + b)[base..ParamsEnd(a, base)] == a[base..ParamsEnd(a, base)];
    }
  }

  lemma {:induction false} ParamsEndExtends(a: string, b: string, i: nat)
    requires i <= |a| && ParamsEnd(a, i) < |a|
    ensures ParamsEnd(a + b, i) == ParamsEnd(a, i)
    decreases |a| - i
  {
    if IsParam(a[i]) {
      ParamsEndExtends(a, b, i + 1);
    }
  }

  /** One pass over a + b is a pass over a followed by a pass over what a left and b. */
  lemma {:induction false} PassSplit(s: ValidState, a: Text, b: Text)
    ensures match Pass(s, a)
            case Stopped(s1, rest) => Pass(s, a + b) == Pass(s1, rest + b)
            case OutsidePage => Pass(s, a + b) == OutsidePage
            case PastBuffer => true
    decreases |a|
  {
    hide Step, Lex, Valid;
    if a == [] {
      assert a + b == b && [] + b == b;
    } else {
      LexExtends(a, b);
      match Lex(a)
      case Incomplete =>
      case PastEnd =>
      case Complete(t, len) =>
        match Step(s, t)
        case Outside =>
        case Done(s1) =>
          PassSplit(s1, a[len..], b);
          assert (a + b)[len..] == a[len..] + b;
    }
  }

  lemma {:induction false} CStringConcat(a: string, b: string)
    ensures CString(a + b) == if NUL in a then CString(a) else a + CString(b)
  {
    if a == [] {
      assert a + b == b;
    } else if a[0] != NUL {
      assert (a + b)[1..] == a[1..] + b;
      CStringConcat(a[1..], b);
    }
  }

  lemma CStringOfText(a: string)
    ensures NUL !in a <==> CString(a) == a
  {
    if NUL !in a {
      CStringConcat(a, "");
      assert a + "" == a;
    }
  }

  /** A buffer cut in two: a NUL in the first part hides the second, else the leftover is carried over to it. */
  lemma AppendSplit(s: ValidState, a: string, b: string)
    ensures NUL in a ==> Append(s, a + b) == Append(s, a)
    ensures NUL !in a ==>
      match Append(s, a)
      case Stopped(s1, rest) => Append(s, a + b) == Append(s1, rest + b)
      case OutsidePage => Append(s, a + b) == OutsidePage
      case PastBuffer => true
  {
    hide Pass, Valid;
    CStringConcat(a, b);
    if NUL !in a {
      CStringOfText(a);
      PassSplit(s, a, CString(b));
      match Pass(s, a)
      case Stopped(s1, rest) => CStringConcat(rest, b);
      case OutsidePage =>
      case PastBuffer =>
    }
  }

  /** ESC is the last byte, or the last two are ESC and one of ( ), or a CSI has no final byte yet. */
  predicate IsUnfinished(buf: string) {
    || buf == [ESC]
    || (|buf| == 2 && buf[0] == ESC && buf[1] in {'(', ')', '['})
    || (|buf| >= 3 && buf[0] == ESC && buf[1] == '[' && (IsPrivateMark(buf[2]) || IsParam(buf[2]))
        && forall k :: 3 <= k < |buf| ==> IsParam(buf[k]))
  }

  /** Exactly the unfinished sequences are kept back; they change nothing. */
  lemma UnfinishedIsKept(s: ValidState, buf: Text)
    requires |buf| > 0
    ensures Lex(buf) == Incomplete <==> IsUnfinished(buf)
    ensures IsUnfinished(buf) ==> Pass(s, buf) == Stopped(s, buf)
  {
    if |buf| >= 3 && buf[0] == ESC && buf[1] == '[' {
      var base := if IsPrivateMark(buf[2]) then 3 else 2;
      var end := ParamsEnd(buf, base);
      assert base == 2 && end == |buf| ==> IsParam(buf[2]);
    }
  }

  predicate EndsInEscHash(buf: string) {
    |buf| >= 2 && buf[|buf| - 2] == ESC && buf[|buf| - 1] == '#'
  }

  /** What a pass leaves over is empty or unfinished; only a final ESC # makes it leave the buffer. */
  lemma {:induction false} PassEnds(s: ValidState, buf: Text)
    ensures match Pass(s, buf)
            case Stopped(_, rest) => rest == [] || IsUnfinished(rest)
            case PastBuffer => EndsInEscHash(buf)
            case OutsidePage => true
    decreases |buf|
  {
    hide Lex, Step, IsUnfinished, EndsInEscHash;
    if buf != [] {
      UnfinishedIsKept(s, buf);
      match Lex(buf)
      case Incomplete =>
      case PastEnd => PastEndIs(buf);
      case Complete(t, len) =>
        match Step(s, t)
        case Outside =>
        case Done(s1) =>
          PassEnds(s1, buf[len..]);
          EndOfRest(buf, len);
    }
  }

  lemma PastEndIs(buf: Text)
    requires buf != [] && Lex(buf) == PastEnd
    ensures EndsInEscHash(buf)
  {
  }

  lemma EndOfRest(buf: string, len: nat)
    requires len <= |buf|
    ensures EndsInEscHash(buf[len..]) ==> EndsInEscHash(buf)
  {
  }

  /** The bytes left over are the last ones of the buffer. */
  lemma {:induction false} RestIsSuffix(s: ValidState, buf: Text)
    requires Pass(s, buf).Stopped?
    ensures var rest := Pass(s, buf).rest;
            |rest| <= |buf| && rest == buf[|buf| - |rest|..]
    decreases |buf|
  {
    hide Step, Lex, Valid;
    if buf != [] && Lex(buf).Complete? {
      var len := Lex(buf).len;
      RestIsSuffix(Step(s, Lex(buf).t).s, buf[len..]);
    }
  }

  /** sizeof(sbuf) - 1. */
  const BUFFER_LIMIT: nat := 1023

  /**
    term_screen for one read after the other: `kept` is sbuf, the bytes read go after it, and what stands
    before the first NUL is processed.
    */
  function Reads(s: ValidState, kept: Text, chunks: seq<string>): Progress
    decreases |chunks|
  {
    if chunks == [] then Stopped(s, kept)
    else
      match Append(s, kept + chunks[0])
      case Stopped(s1, rest) => Reads(s1, rest, chunks[1..])
      case OutsidePage => OutsidePage
      case PastBuffer => PastBuffer
  }

  /** Every read brings at least a byte and no more than there is room for: an empty one ends the session. */
  predicate Fits(s: ValidState, kept: Text, chunks: seq<string>)
    decreases |chunks|
  {
    chunks != [] ==>
      && chunks[0] != [] && |kept| + |chunks[0]| <= BUFFER_LIMIT
      && match Append(s, kept + chunks[0])
         case Stopped(s1, rest) => Fits(s1, rest, chunks[1..])
         case _ => true
  }

  predicate NoEscHash(buf: string) {
    forall i :: 0 <= i < |buf| - 1 ==> !(buf[i] == ESC && buf[i + 1] == '#')
  }

  /** What of each read stands before its first NUL. */
  function Seen(chunks: seq<string>): (text: Text) {
    if chunks == [] then "" else CString(chunks[0]) + Seen(chunks[1..])
  }

  /**
    Any list of reads is one pass over the bytes they show: no way of cutting these into reads can be told
    from the state or the leftover.
    */
  lemma {:induction false} ReadsAreOnePass(s: ValidState, kept: Text, chunks: seq<string>)
    requires NoEscHash(kept + Seen(chunks)) && Pass(s, kept) == Stopped(s, kept)
    ensures Reads(s, kept, chunks) == Pass(s, kept + Seen(chunks)) != PastBuffer
    decreases |chunks|
  {
    hide Pass, NoEscHash, EndsInEscHash, IsUnfinished;
    if chunks == [] {
      assert kept + Seen(chunks) == kept;
    } else {
      var first, rest := CString(chunks[0]), Seen(chunks[1..]);
      assert kept + Seen(chunks) == (kept + first) + rest;
      CStringConcat(kept, chunks[0]);
      PassSplit(s, kept + first, rest);
      NoEscHashPrefix(kept + first, rest);
      PassEnds(s, kept + first);
      match Pass(s, kept + first)
      case Stopped(s1, left) =>
        RestIsSuffix(s, kept + first);
        NoEscHashSuffix(kept + first, left, rest);
        LeftIsKept(s, kept + first);
        ReadsAreOnePass(s1, left, chunks[1..]);
      case OutsidePage =>
      case PastBuffer => assert false;
    }
  }

  lemma NoEscHashPrefix(a: string, b: string)
    requires NoEscHash(a + b)
    ensures !EndsInEscHash(a)
  {
    assert forall i :: 0 <= i < |a| ==> (a + b)[i] == a[i];
  }

  lemma NoEscHashSuffix(a: string, left: string, b: string)
    requires NoEscHash(a + b) && |left| <= |a| && left == a[|a| - |left|..]
    ensures NoEscHash(left + b)
  {
    assert forall i :: 0 <= i < |left + b| ==> (left + b)[i] == (a + b)[|a| - |left| + i];
  }

  lemma LeftIsKept(s: ValidState, text: Text)
    requires Pass(s, text).Stopped?
    ensures var r := Pass(s, text); Pass(r.s, r.rest) == r
  {
    PassEnds(s, text);
    RestIsSuffix(s, text);
    var r := Pass(s, text);
    if r.rest != [] {
      UnfinishedIsKept(r.s, r.rest);
    }
  }

  /** A stream without NUL: any reads of it, from an empty buffer, are one pass over the stream. */
  lemma ReadsOfText(s: ValidState, chunks: seq<string>)
    requires NUL !in Concat(chunks) && NoEscHash(Concat(chunks))
    ensures Reads(s, "", chunks) == Append(s, Concat(chunks)) != PastBuffer
  {
    hide Append, NoEscHash;
    SeenOfText(chunks);
    CStringOfText(Concat(chunks));
    assert "" + Seen(chunks) == Seen(chunks);
    ReadsAreOnePass(s, "", chunks);
    assert Append(s, Concat(chunks)) == Pass(s, Concat(chunks)) by { AppendText(s, Concat(chunks)); }
  }

  lemma AppendText(s: ValidState, text: Text)
    ensures Append(s, text) == Pass(s, text)
  {
    CStringOfText(text);
  }

  lemma {:induction false} SeenOfText(chunks: seq<string>)
    requires NUL !in Concat(chunks)
    ensures Seen(chunks) == Concat(chunks)
  {
    if chunks != [] {
      CStringOfText(chunks[0]);
      SeenOfText(chunks[1..]);
    }
  }

  /** After its first NUL the stream has nothing but NULs. */
  predicate NulsLast(stream: string) {
    forall i :: |CString(stream)| <= i < |stream| ==> stream[i] == NUL
  }

  /**
    When the cutting cannot show: every cutting of a stream shows the same bytes as reading it at once if and
    only if no other byte follows a NUL in it.
    */
  lemma CuttingHidden(stream: string)
    ensures (forall chunks :: Concat(chunks) == stream ==> Seen(chunks) == CString(stream)) <==> NulsLast(stream)
  {
    if NulsLast(stream) {
      forall chunks | Concat(chunks) == stream ensures Seen(chunks) == CString(stream) {
        SeenWithNulsLast(chunks);
      }
    } else {
      var i :| |CString(stream)| <= i < |stream| && stream[i] != NUL;
      CutAt(stream, i);
    }
  }

  lemma {:induction false} SeenWithNulsLast(chunks: seq<string>)
    requires NulsLast(Concat(chunks))
    ensures Seen(chunks) == CString(Concat(chunks))
  {
    if chunks != [] {
      var a, b := chunks[0], Concat(chunks[1..]);
      CStringConcat(a, b);
      assert forall i :: 0 <= i < |b| ==> b[i] == (a + b)[|a| + i];
      SeenWithNulsLast(chunks[1..]);
      if NUL !in a {
        CStringOfText(a);
      } else {
        CStringOfText(a);
        assert CString(b) == [];
      }
    }
  }

  lemma TwoChunks(a: string, b: string)
    ensures Concat([a, b]) == a + b && Seen([a, b]) == CString(a) + CString(b)
  {
    hide CString;
    assert [a, b][1..] == [b] && [b][1..] == [];
    assert Concat([]) == "" && Seen([]) == "";
    assert Concat([b]) == b + "" == b && Seen([b]) == CString(b) + "" == CString(b);
  }

  /** Cutting before a byte that follows a NUL makes it seen. */
  lemma CutAt(stream: string, i: nat)
    requires |CString(stream)| <= i < |stream| && stream[i] != NUL
    ensures Concat([stream[..i], stream[i..]]) == stream
    ensures Seen([stream[..i], stream[i..]]) != CString(stream)
  {
    var a, b := stream[..i], stream[i..];
    assert stream == a + b;
    TwoChunks(a, b);
    assert |CString(stream)| < i && a[|CString(stream)|] == NUL;
    CStringConcat(a, b);
    assert b[0] != NUL && |CString(b)| > 0;
  }

  /** An unfinished sequence that fills the buffer leaves room for an empty read only, which ends the session. */
  lemma FullBufferEndsSession(s: ValidState, text: Text)
    requires IsUnfinished(text) && |text| == 1023
    ensures Append(s, text) == Stopped(s, text)
    ensures forall chunk :: !Fits(s, text, [chunk])
  {
    UnfinishedIsKept(s, text);
    AppendText(s, text);
  }
}
