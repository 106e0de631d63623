/**
 * Reduction of a full catalog part number such as `H-132-HDG X 10` to its
 * family code `H-132`: the leading letters, a dash and the digits after it,
 * upper-cased. A part number that does not start that way is kept whole,
 * without its surrounding whitespace and upper-cased; a missing one gives
 * the empty string.
 */
module CorePart {
  import opened Wrappers
  import opened Ascii
  import opened Normalization

  /** The length of the run of ASCII letters that starts `s`. */
  function LetterRun(s: string): (n: nat)
    ensures n <= |s|
    ensures forall i | 0 <= i < n :: IsLetter(s[i])
    ensures n < |s| ==> !IsLetter(s[n])
  {
    if s == [] || !IsLetter(s[0]) then 0 else 1 + LetterRun(s[1..])
  }

  /** The length of the run of ASCII digits that starts `s`. */
  function DigitRun(s: string): (n: nat)
    ensures n <= |s|
    ensures forall i | 0 <= i < n :: IsDigit(s[i])
    ensures n < |s| ==> !IsDigit(s[n])
  {
    if s == [] || !IsDigit(s[0]) then 0 else 1 + DigitRun(s[1..])
  }

  /** `t` is letters up to index `p`, a dash at `p`, and digits after it, with both runs non-empty. */
  ghost predicate SplitsAsCode(t: string, p: int)
  {
    0 < p < |t| - 1 && t[p] == '-' && AllLetters(t[..p]) && AllDigits(t[p + 1..])
  }

  /** `t` is a word of the case-insensitive pattern `[A-Z]+-[0-9]+`. */
  ghost predicate IsCoreCode(t: string)
  {
    exists p :: SplitsAsCode(t, p)
  }

  /**
   * The anchored, case-insensitive match of `[A-Z]+-[0-9]+` at the start of
   * `s`: the length of the matched prefix, or None when there is no match.
   * Both runs are greedy, so the match takes the whole letter run and the
   * whole digit run after the dash.
   */
  function MatchCore(s: string): (m: Option<nat>)
    ensures m.Some? ==> m.value <= |s| && IsCoreCode(s[..m.value])
  {
    var n := LetterRun(s);
    if 0 < n < |s| && s[n] == '-' then
      var d := DigitRun(s[n + 1..]);
      if 0 < d then
        var k := n + 1 + d;
        assert s[..k][..n] == s[..n];
        assert s[..k][n + 1..] == s[n + 1..][..d];
        assert SplitsAsCode(s[..k], n);
        Some(k)
      else
        None
    else
      None
  }

  /** Any prefix of `s` in the pattern splits where the leading letter run of `s` ends, and its digits lie inside the digit run after that dash. */
  lemma CodePrefixBound(s: string, k: int, p: int)
    requires 0 <= k <= |s| && SplitsAsCode(s[..k], p)
    ensures p == LetterRun(s) && s[p] == '-'
    ensures k - p - 1 <= DigitRun(s[p + 1..])
  {
    var t := s[..k];
    assert forall i | 0 <= i < p :: IsLetter(s[i]) by {
      forall i | 0 <= i < p ensures IsLetter(s[i]) {
        assert t[..p][i] == s[i];
      }
    }
    assert s[p] == t[p];
    var u := s[p + 1..];
    assert forall i | 0 <= i < k - p - 1 :: IsDigit(u[i]) by {
      forall i | 0 <= i < k - p - 1 ensures IsDigit(u[i]) {
        assert t[p + 1..][i] == u[i];
      }
    }
  }

  /**
   * MatchCore agrees with the leftmost-greedy semantics of the regular
   * expression: on a match it returns the longest prefix of `s` in the
   * pattern, and it reports no match only when no prefix of `s` is in it.
   */
  lemma MatchCoreIsLongestCodePrefix(s: string)
    ensures MatchCore(s).Some? ==> forall k | MatchCore(s).value < k <= |s| :: !IsCoreCode(s[..k])
    ensures MatchCore(s).None? ==> forall k | 0 <= k <= |s| :: !IsCoreCode(s[..k])
  {
    forall k, p | 0 <= k <= |s| && SplitsAsCode(s[..k], p)
      ensures p == LetterRun(s) && s[p] == '-' && k - p - 1 <= DigitRun(s[p + 1..])
    {
      CodePrefixBound(s, k, p);
    }
  }

  /** Python's `extract_core_part`: the upper-cased family code, or the whole stripped, upper-cased part when it has none. */
  function ExtractCorePart(part: Option<string>): (core: string)
    ensures part.None? ==> core == ""
    ensures part.Some? ==> |core| <= |part.value|
  {
    match part
    case None => ""
    case Some(s) =>
      match MatchCore(s)
      case Some(k) => Upper(s[..k])
      case None => Upper(Strip(s))
  }

  /** On a part that starts with letters, a dash and digits (not followed by a further digit), the match is exactly those three pieces. */
  lemma MatchCoreOfCode(letters: string, digits: string, rest: string)
    requires |letters| > 0 && AllLetters(letters)
    requires |digits| > 0 && AllDigits(digits)
    requires rest == [] || !IsDigit(rest[0])
    ensures MatchCore(letters + "-" + digits + rest) == Some(|letters| + 1 + |digits|)
    ensures (letters + "-" + digits + rest)[..|letters| + 1 + |digits|] == letters + "-" + digits
  {
    var s := letters + "-" + digits + rest;
    var n := |letters|;
    assert forall i | 0 <= i < n :: s[i] == letters[i];
    assert s[n] == '-';
    assert LetterRun(s) == n;
    var u := s[n + 1..];
    assert u == digits + rest;
    assert forall i | 0 <= i < |digits| :: u[i] == digits[i];
    assert |digits| < |u| ==> u[|digits|] == rest[0];
    assert DigitRun(u) == |digits|;
  }

  /** The key of a family code written with any case: its letters lower-cased, then its digits; the dash is dropped. */
  lemma CodeNameKey(letters: string, digits: string)
    requires AllLetters(letters) && AllDigits(digits)
    ensures Normalize(Some(letters + "-" + digits)) == Lower(letters) + digits
  {
    NormalizeDropsDash(letters, digits);
    NormalizeAlnum(letters);
    NormalizeDigits(digits);
  }

  /** Upper-casing a family code does not change its key. */
  lemma CodeKey(letters: string, digits: string)
    requires AllLetters(letters) && AllDigits(digits)
    ensures Normalize(Some(Upper(letters + "-" + digits))) == Lower(letters) + digits
  {
    NormalizeIgnoresCase(letters + "-" + digits);
    CodeNameKey(letters, digits);
  }

  /** Upper-casing a family code touches only its letters. */
  lemma UpperCode(letters: string, digits: string)
    requires AllDigits(digits)
    ensures Upper(letters + "-" + digits) == Upper(letters) + "-" + digits
  {
  }

  /**
   * A part that starts with letters, a dash and digits (not followed by a
   * further digit) reduces to the upper-cased letters, the dash and the
   * digits; its key is the lower-cased letters followed by the digits.
   */
  lemma ExtractCorePartOfCode(letters: string, digits: string, rest: string)
    requires |letters| > 0 && AllLetters(letters)
    requires |digits| > 0 && AllDigits(digits)
    requires rest == [] || !IsDigit(rest[0])
    ensures ExtractCorePart(Some(letters + "-" + digits + rest)) == Upper(letters) + "-" + digits
    ensures Normalize(Some(ExtractCorePart(Some(letters + "-" + digits + rest)))) == Lower(letters) + digits
  {
    MatchCoreOfCode(letters, digits, rest);
    UpperCode(letters, digits);
    CodeKey(letters, digits);
  }

  /**
   * A part with no prefix in the pattern is returned whole, without its
   * surrounding whitespace and upper-cased; its key is the key of the part.
   */
  lemma ExtractCorePartFallback(s: string)
    requires forall k | 0 <= k <= |s| :: !IsCoreCode(s[..k])
    ensures ExtractCorePart(Some(s)) == Upper(Strip(s))
    ensures Normalize(Some(ExtractCorePart(Some(s)))) == Normalize(Some(s))
  {
    NormalizeIgnoresCase(Strip(s));
    NormalizeStrip(s);
  }

  /**
   * The key the reference table is searched with: the key of the matched
   * family code when the pattern matches, otherwise the key of the whole
   * part (case and surrounding whitespace do not change it).
   */
  lemma CoreKey(part: Option<string>)
    ensures part.None? ==> Normalize(Some(ExtractCorePart(part))) == ""
    ensures part.Some? && MatchCore(part.value).Some? ==>
      Normalize(Some(ExtractCorePart(part))) == Normalize(Some(part.value[..MatchCore(part.value).value]))
    ensures part.Some? && MatchCore(part.value).None? ==>
      Normalize(Some(ExtractCorePart(part))) == Normalize(Some(part.value))
  {
    if part.Some? {
      var s := part.value;
      match MatchCore(s)
      case Some(k) => NormalizeIgnoresCase(s[..k]);
      case None => NormalizeIgnoresCase(Strip(s)); NormalizeStrip(s);
    } else {
      NormalizeFixpoint("");
    }
  }

  /** `H-132-HDG X 10` reduces to the family code `H-132`. */
  lemma ExtractCorePartExample()
    ensures ExtractCorePart(Some("H-132-HDG X 10")) == "H-132"
  {
    ExamplePieces();
    ExtractCorePartOfCode("H", "132", "-HDG X 10");
    ExampleSpelling();
  }

  /** `H-132-HDG X 10` is the letters `H`, a dash, the digits `132` and a rest that starts with no digit. */
  lemma ExamplePieces()
    ensures "H-132-HDG X 10" == "H" + "-" + "132" + "-HDG X 10"
    ensures AllLetters("H") && AllDigits("132") && !IsDigit("-HDG X 10"[0])
  {
  }

  lemma ExampleSpelling()
    ensures Upper("H") + "-" + "132" == "H-132"
  {
  }

  /** The family code `H-132` has the key `h132`. */
  lemma CoreKeyExample()
    ensures Normalize(Some("H-132")) == "h132"
  {
    CodeKey("H", "132");
    assert Upper("H" + "-" + "132") == "H-132";
    assert Lower("H") + "132" == "h132";
  }
}
