/** Joining strings, searching them and cutting them into lines. */
module Strings {

  function Concat(chunks: seq<string>): string {
    if chunks == [] then "" else chunks[0] + Concat(chunks[1..])
  }

  /** std::string::find, |s| for npos. */
  function Find(s: string, c: char): (i: nat)
    ensures i <= |s| && forall k :: 0 <= k < i ==> s[k] != c
    ensures i < |s| ==> s[i] == c
  {
    if s == [] || s[0] == c then 0 else Find(s[1..], c) + 1
  }

  /** Between a text free of c and any other, the first c is the one put there. */
  lemma FindFirst(s: string, c: char, t: string)
    requires c !in s
    ensures Find(s + [c] + t, c) == |s|
  {
    assert (s + [c] + t)[|s|] == c;
    assert s == (s + [c] + t)[..|s|];
  }

  /** What follows the first line of a text. */
  function AfterLine(text: string): (rest: string)
    requires text != ""
    ensures |rest| < |text|
  {
    if Find(text, '\n') < |text| then text[Find(text, '\n') + 1..] else ""
  }

  /** The part of a text still to be read; a reader's position may lie one past the end. */
  ghost function From(text: string, pos: nat): string { if pos < |text| then text[pos..] else "" }

  lemma FromIs(text: string, pos: nat)
    ensures From(text, pos) == if pos == 0 then text else if pos < |text| then text[pos..] else ""
  {
  }

  /** The line a reader finds at its position, and where it goes on. */
  lemma LineFrom(text: string, pos: nat, end: nat)
    requires pos < |text| && end == Find(text[pos..], '\n') + pos
    ensures pos <= end <= |text| && From(text, pos) != ""
    ensures From(text, pos)[..Find(From(text, pos), '\n')] == text[pos..end]
    ensures AfterLine(From(text, pos)) == From(text, end + 1)
  {
    hide Find;
  }
}
