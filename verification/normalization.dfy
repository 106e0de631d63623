/**
 * The lookup key of a part number: every character outside `[A-Za-z0-9]`
 * removed, the rest lower-cased, and a missing cell mapped to the empty key.
 * Query text, catalog parts and reference names all go through it before
 * they are compared.
 */
module Normalization {
  import opened Wrappers
  import opened Ascii

  /** The regular-expression substitution that deletes every character outside `[A-Za-z0-9]`. */
  function KeepAlnum(s: string): (r: string)
    ensures |r| <= |s|
    ensures forall i | 0 <= i < |r| :: IsAlnum(r[i])
  {
    if s == [] then []
    else (if IsAlnum(s[0]) then [s[0]] else []) + KeepAlnum(s[1..])
  }

  /** The key of an optional part number; a missing value gives the empty key and never fails. */
  function Normalize(part: Option<string>): (key: string)
    ensures part.None? ==> key == ""
    ensures part.Some? ==> |key| <= |part.value|
    ensures forall i | 0 <= i < |key| :: IsKeyChar(key[i])
  {
    match part
    case None => ""
    case Some(s) => Lower(KeepAlnum(s))
  }

  /** The number of ASCII letters and digits in `s`. */
  function AlnumCount(s: string): nat
  {
    if s == [] then 0 else (if IsAlnum(s[0]) then 1 else 0) + AlnumCount(s[1..])
  }

  lemma {:induction false} KeepAlnumConcat(a: string, b: string)
    ensures KeepAlnum(a + b) == KeepAlnum(a) + KeepAlnum(b)
  {
    if a == [] {
      assert a + b == b;
    } else {
      assert (a + b)[0] == a[0];
      assert (a + b)[1..] == a[1..] + b;
      KeepAlnumConcat(a[1..], b);
    }
  }

  lemma LowerConcat(a: string, b: string)
    ensures Lower(a + b) == Lower(a) + Lower(b)
  {
    assert forall i | 0 <= i < |a + b| :: (a + b)[i] == if i < |a| then a[i] else b[i - |a|];
  }

  /** The key of a concatenation is the concatenation of the keys. */
  lemma NormalizeConcat(a: string, b: string)
    ensures Normalize(Some(a + b)) == Normalize(Some(a)) + Normalize(Some(b))
  {
    KeepAlnumConcat(a, b);
    LowerConcat(KeepAlnum(a), KeepAlnum(b));
  }

  /** One character contributes its lower-case form when it is a letter or digit, and nothing otherwise. */
  lemma NormalizeCons(c: char, s: string)
    ensures Normalize(Some([c] + s)) == (if IsAlnum(c) then [ToLower(c)] else []) + Normalize(Some(s))
  {
    NormalizeConcat([c], s);
    assert KeepAlnum([c]) == (if IsAlnum(c) then [c] else []) + KeepAlnum([]);
  }

  /** A string is its own key exactly when it holds only lower-case letters and digits. */
  lemma {:induction false} NormalizeFixpoint(t: string)
    ensures Normalize(Some(t)) == t <==> forall i | 0 <= i < |t| :: IsKeyChar(t[i])
  {
    if t != [] && forall i | 0 <= i < |t| :: IsKeyChar(t[i]) {
      assert t == [t[0]] + t[1..];
      NormalizeCons(t[0], t[1..]);
      assert forall i | 0 <= i < |t[1..]| :: IsKeyChar(t[1..][i]) by {
        forall i | 0 <= i < |t[1..]| ensures IsKeyChar(t[1..][i]) {
          assert t[1..][i] == t[i + 1];
        }
      }
      NormalizeFixpoint(t[1..]);
    }
  }

  /** Normalizing a key again changes nothing. */
  lemma NormalizeIdempotent(part: Option<string>)
    ensures Normalize(Some(Normalize(part))) == Normalize(part)
  {
    NormalizeFixpoint(Normalize(part));
  }

  /** Case does not matter: upper- or lower-casing a string first gives the same key. */
  lemma {:induction false} NormalizeIgnoresCase(s: string)
    ensures Normalize(Some(Upper(s))) == Normalize(Some(s))
    ensures Normalize(Some(Lower(s))) == Normalize(Some(s))
  {
    if s != [] {
      assert s == [s[0]] + s[1..];
      assert Upper(s) == [ToUpper(s[0])] + Upper(s[1..]);
      assert Lower(s) == [ToLower(s[0])] + Lower(s[1..]);
      NormalizeCons(s[0], s[1..]);
      NormalizeCons(ToUpper(s[0]), Upper(s[1..]));
      NormalizeCons(ToLower(s[0]), Lower(s[1..]));
      NormalizeIgnoresCase(s[1..]);
    }
  }

  /** Punctuation and spacing do not matter: deleting a character outside `[A-Za-z0-9]` leaves the key unchanged. */
  lemma NormalizeIgnoresPunctuation(a: string, c: char, b: string)
    requires !IsAlnum(c)
    ensures Normalize(Some(a + [c] + b)) == Normalize(Some(a + b))
  {
    NormalizeConcat(a + [c], b);
    NormalizeConcat(a, [c]);
    NormalizeConcat(a, b);
    assert Normalize(Some([c])) == "" by {
      NormalizeNoAlnum([c]);
    }
  }

  /** The key has one character per ASCII letter or digit of the input. */
  lemma {:induction false} NormalizeLength(s: string)
    ensures |Normalize(Some(s))| == AlnumCount(s)
  {
    if s != [] {
      assert s == [s[0]] + s[1..];
      NormalizeCons(s[0], s[1..]);
      NormalizeLength(s[1..]);
    }
  }

  /**
   * The key lists the letters and digits of `s` in their original order,
   * lower-cased: the one at index `i` lands at the position given by the
   * number of letters and digits before it.
   */
  lemma NormalizeInOrder(s: string, i: int)
    requires 0 <= i < |s| && IsAlnum(s[i])
    ensures AlnumCount(s[..i]) < |Normalize(Some(s))|
    ensures Normalize(Some(s))[AlnumCount(s[..i])] == ToLower(s[i])
  {
    assert s == s[..i] + ([s[i]] + s[i + 1..]);
    NormalizeConcat(s[..i], [s[i]] + s[i + 1..]);
    NormalizeCons(s[i], s[i + 1..]);
    NormalizeLength(s[..i]);
  }

  /** A string with no letter or digit has the empty key. */
  lemma {:induction false} NormalizeNoAlnum(s: string)
    requires forall i | 0 <= i < |s| :: !IsAlnum(s[i])
    ensures Normalize(Some(s)) == ""
  {
    if s != [] {
      assert s == [s[0]] + s[1..];
      NormalizeCons(s[0], s[1..]);
      assert forall i | 0 <= i < |s[1..]| :: !IsAlnum(s[1..][i]) by {
        forall i | 0 <= i < |s[1..]| ensures !IsAlnum(s[1..][i]) {
          assert s[1..][i] == s[i + 1];
        }
      }
      NormalizeNoAlnum(s[1..]);
    }
  }

  /** Whitespace around a string does not change its key. */
  lemma NormalizeIgnoresSurroundingSpace(before: string, s: string, after: string)
    requires AllSpace(before) && AllSpace(after)
    ensures Normalize(Some(before + s + after)) == Normalize(Some(s))
  {
    NormalizeConcat(before + s, after);
    NormalizeConcat(before, s);
    NormalizeNoAlnum(before);
    NormalizeNoAlnum(after);
  }

  /** Stripping whitespace does not change a key. */
  lemma NormalizeStrip(s: string)
    ensures Normalize(Some(Strip(s))) == Normalize(Some(s))
  {
    var before, after := StripSplit(s);
    NormalizeIgnoresSurroundingSpace(before, Strip(s), after);
  }

  /** The dash between the letters and the digits of a family code contributes nothing to its key. */
  lemma NormalizeDropsDash(letters: string, digits: string)
    ensures Normalize(Some(letters + "-" + digits)) == Normalize(Some(letters)) + Normalize(Some(digits))
  {
    NormalizeConcat(letters + "-", digits);
    NormalizeConcat(letters, "-");
    assert Normalize(Some("-")) == "" by {
      NormalizeNoAlnum("-");
    }
  }

  /** A run of digits is its own key. */
  lemma NormalizeDigits(digits: string)
    requires AllDigits(digits)
    ensures Normalize(Some(digits)) == digits
  {
    NormalizeAlnum(digits);
    assert Lower(digits) == digits;
  }

  /** A string of letters and digits keys to its lower-case form. */
  lemma {:induction false} NormalizeAlnum(s: string)
    requires forall i | 0 <= i < |s| :: IsAlnum(s[i])
    ensures Normalize(Some(s)) == Lower(s)
  {
    if s != [] {
      assert s == [s[0]] + s[1..];
      NormalizeCons(s[0], s[1..]);
      assert Lower(s) == [ToLower(s[0])] + Lower(s[1..]);
      assert forall i | 0 <= i < |s[1..]| :: IsAlnum(s[1..][i]) by {
        forall i | 0 <= i < |s[1..]| ensures IsAlnum(s[1..][i]) {
          assert s[1..][i] == s[i + 1];
        }
      }
      NormalizeAlnum(s[1..]);
    }
  }

  /** Dropping two separators between three pieces leaves the key unchanged. */
  lemma NormalizeDropsSeparators(x: string, c: char, y: string, d: char, z: string)
    requires !IsAlnum(c) && !IsAlnum(d)
    ensures Normalize(Some(x + [c] + y + [d] + z)) == Normalize(Some(x + y + z))
  {
    assert x + [c] + y + [d] + z == x + [c] + (y + [d] + z);
    NormalizeIgnoresPunctuation(x, c, y + [d] + z);
    assert x + (y + [d] + z) == (x + y) + [d] + z;
    NormalizeIgnoresPunctuation(x + y, d, z);
  }

  /** The upper-case spelling `H132HDG` keys to `h132hdg`. */
  lemma NormalizeUnseparatedExample()
    ensures Normalize(Some("H132HDG")) == "h132hdg"
  {
    NormalizeAlnum("H132HDG");
    assert Lower("H132HDG") == "h132hdg";
  }

  /** The catalog spelling `H-132-HDG` keys to `h132hdg`. */
  lemma NormalizeDashedExample()
    ensures Normalize(Some("H-132-HDG")) == "h132hdg"
  {
    assert Normalize(Some("H-132-HDG")) == Normalize(Some("H132HDG")) by {
      assert "H-132-HDG" == "H" + ['-'] + "132" + ['-'] + "HDG";
      NormalizeDropsSeparators("H", '-', "132", '-', "HDG");
      assert "H" + "132" + "HDG" == "H132HDG";
    }
    NormalizeUnseparatedExample();
  }

  /** The spaced spelling `H 132 HDG` keys to `h132hdg`. */
  lemma NormalizeSpacedExample()
    ensures Normalize(Some("H 132 HDG")) == "h132hdg"
  {
    assert Normalize(Some("H 132 HDG")) == Normalize(Some("H132HDG")) by {
      assert "H 132 HDG" == "H" + [' '] + "132" + [' '] + "HDG";
      NormalizeDropsSeparators("H", ' ', "132", ' ', "HDG");
      assert "H" + "132" + "HDG" == "H132HDG";
    }
    NormalizeUnseparatedExample();
  }

  /** The compact spelling `h132hdg` is already a key. */
  lemma NormalizeCompactExample()
    ensures Normalize(Some("h132hdg")) == "h132hdg"
  {
    NormalizeFixpoint("h132hdg");
  }
}
