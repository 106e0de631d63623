/**
 * ASCII character classes and the three string operations the part search
 * applies: lower-casing, upper-casing and stripping surrounding whitespace.
 * Case mapping touches only the ASCII letters and whitespace is Python's
 * notion of whitespace restricted to ASCII.
 */
module Ascii {

  predicate IsUpper(c: char) { 'A' <= c <= 'Z' }

  predicate IsLower(c: char) { 'a' <= c <= 'z' }

  predicate IsLetter(c: char) { IsUpper(c) || IsLower(c) }

  predicate IsDigit(c: char) { '0' <= c <= '9' }

  /** The class `[A-Za-z0-9]`. */
  predicate IsAlnum(c: char) { IsLetter(c) || IsDigit(c) }

  /** A character a normalized key may hold: a lower-case letter or a digit. */
  predicate IsKeyChar(c: char) { IsLower(c) || IsDigit(c) }

  /**
   * Python's `str.isspace` on ASCII: tab, line feed, vertical tab, form feed,
   * carriage return (0x09-0x0D), the separators 0x1C-0x1F and space.
   */
  predicate IsSpace(c: char) { 9 <= c as int <= 13 || 28 <= c as int <= 32 }

  ghost predicate AllLetters(s: string) { forall i | 0 <= i < |s| :: IsLetter(s[i]) }

  ghost predicate AllDigits(s: string) { forall i | 0 <= i < |s| :: IsDigit(s[i]) }

  ghost predicate AllSpace(s: string) { forall i | 0 <= i < |s| :: IsSpace(s[i]) }

  function ToLower(c: char): char
  {
    if IsUpper(c) then (c as int + 32) as char else c
  }

  function ToUpper(c: char): char
  {
    if IsLower(c) then (c as int - 32) as char else c
  }

  /** Python's `str.lower`, on the ASCII letters. */
  function Lower(s: string): (r: string)
    ensures |r| == |s|
    ensures forall i | 0 <= i < |s| :: r[i] == ToLower(s[i])
  {
    if s == [] then [] else [ToLower(s[0])] + Lower(s[1..])
  }

  /** Python's `str.upper`, on the ASCII letters. */
  function Upper(s: string): (r: string)
    ensures |r| == |s|
    ensures forall i | 0 <= i < |s| :: r[i] == ToUpper(s[i])
  {
    if s == [] then [] else [ToUpper(s[0])] + Upper(s[1..])
  }

  /** The number of whitespace characters at the start of `s`. */
  function LeadingSpace(s: string): (n: nat)
    ensures n <= |s|
    ensures forall i | 0 <= i < n :: IsSpace(s[i])
    ensures n < |s| ==> !IsSpace(s[n])
  {
    if s == [] || !IsSpace(s[0]) then 0 else 1 + LeadingSpace(s[1..])
  }

  /** The number of whitespace characters at the end of `s`. */
  function TrailingSpace(s: string): (n: nat)
    ensures n <= |s|
    ensures forall i | |s| - n <= i < |s| :: IsSpace(s[i])
    ensures n < |s| ==> !IsSpace(s[|s| - 1 - n])
  {
    if s == [] || !IsSpace(s[|s| - 1]) then 0 else 1 + TrailingSpace(s[..|s| - 1])
  }

  /** `r` sits at offset `i` of `s` with only whitespace on either side of it. */
  ghost predicate TrimmedAt(s: string, r: string, i: int)
  {
    0 <= i <= |s| - |r| && s[i..i + |r|] == r && AllSpace(s[..i]) && AllSpace(s[i + |r|..])
  }

  /**
   * Python's `str.strip()` with no argument: `s` without its leading and
   * trailing whitespace. The two postconditions determine the result.
   */
  function Strip(s: string): (r: string)
    ensures exists i :: TrimmedAt(s, r, i)
    ensures r == [] || (!IsSpace(r[0]) && !IsSpace(r[|r| - 1]))
  {
    var lead := LeadingSpace(s);
    if lead == |s| then
      assert TrimmedAt(s, [], 0);
      []
    else
      var trail := TrailingSpace(s);
      assert !IsSpace(s[lead]);
      assert TrimmedAt(s, s[lead..|s| - trail], lead);
      s[lead..|s| - trail]
  }

  /** The index form of TrimmedAt. */
  lemma TrimmedAtIndices(s: string, r: string, i: int)
    requires TrimmedAt(s, r, i)
    ensures forall k | 0 <= k < i :: IsSpace(s[k])
    ensures forall k | i + |r| <= k < |s| :: IsSpace(s[k])
    ensures forall k | 0 <= k < |r| :: s[i + k] == r[k]
  {
    forall k | 0 <= k < i ensures IsSpace(s[k]) {
      assert s[..i][k] == s[k];
    }
    forall k | i + |r| <= k < |s| ensures IsSpace(s[k]) {
      assert s[i + |r|..][k - i - |r|] == s[k];
    }
  }

  /** Stripping keeps exactly the part between the maximal whitespace runs: no other trimming has those properties. */
  lemma {:induction false} StripIsUnique(s: string, r: string, i: int)
    requires TrimmedAt(s, r, i)
    requires r == [] || (!IsSpace(r[0]) && !IsSpace(r[|r| - 1]))
    ensures r == Strip(s)
  {
    var t := Strip(s);
    var j :| TrimmedAt(s, t, j);
    TrimmedAtIndices(s, r, i);
    TrimmedAtIndices(s, t, j);
    // The first non-space characters of r and t are where each one starts.
    assert r != [] ==> s[i + 0] == r[0];
    assert t != [] ==> s[j + 0] == t[0];
    if r != [] && t != [] {
      assert i == j;
      assert s[i + (|r| - 1)] == r[|r| - 1] && s[j + (|t| - 1)] == t[|t| - 1];
      assert |r| == |t|;
    }
  }

  /** The pieces Strip removes: `s` is whitespace, then Strip(s), then whitespace. */
  lemma StripSplit(s: string) returns (before: string, after: string)
    ensures s == before + Strip(s) + after
    ensures AllSpace(before) && AllSpace(after)
  {
    var r := Strip(s);
    var i :| TrimmedAt(s, r, i);
    before, after := s[..i], s[i + |r|..];
    assert s == before + r + after;
  }
}
