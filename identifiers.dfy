/**
 * The `identifier` token of grammar.js and the `_reserved_identifier`
 * words. An identifier is one `alpha` unit and then any number of
 * `alphanumeric` units; a unit is a single character outside a banned set
 * or a `\u` escape. The Unicode classes `\s` and `\p{Zs}` in the banned set
 * are the parameter `space`: whatever `space` holds is banned.
 */
module Identifiers {
  import opened Chars
  import opened Wrappers
  import Escapes

  // The punctuation that the classes ban: `:;`"'@#.,|^&<=>+\-*/\\%?!~()\[\]{}`.
  const BannedPunctuation: string := ":;`\"'@#.,|^&<=>+-*/\\%?!~()[]{}"

  // U+FEFF, U+2060, U+200B, U+2028 and U+2029.
  predicate IsBannedFormat(c: char) {
    c == '\U{FEFF}' || c == '\U{2060}' || c == '\U{200B}' || c == LineSeparator || c == ParagraphSeparator
  }

  // The class of `alphanumeric`: no control character below U+0020, nothing `space` holds,
  // nothing in `BannedPunctuation` and none of the banned format characters.
  predicate IsAlphanumericChar(c: char, space: char -> bool) {
    !(c as int < 0x20) && !space(c) && c !in BannedPunctuation && !IsBannedFormat(c)
  }

  // The class of `alpha`: the same with `0-9` banned as well.
  predicate IsAlphaChar(c: char, space: char -> bool) {
    IsAlphanumericChar(c, space) && !IsDecDigit(c)
  }

  // `\\u[0-9a-fA-F]{4}|\\u\{[0-9a-fA-F]+\}`: a backslash, then the two `u` forms of `escape_sequence`.
  predicate IsUnicodeEscape(x: string) {
    && |x| >= 1 && x[0] == '\\'
    && (Escapes.IsEscapeForm(x[1..], Escapes.Unicode4) || Escapes.IsEscapeForm(x[1..], Escapes.UnicodeBraced))
  }

  // The same two forms, spelled out on the whole escape.
  lemma UnicodeEscapeForms(x: string)
    ensures IsUnicodeEscape(x) <==>
      || (|x| == 6 && x[0] == '\\' && x[1] == 'u' && All(x[2..], IsHexDigit))
      || (|x| >= 5 && x[0] == '\\' && x[1] == 'u' && x[2] == '{' && All(x[3..|x| - 1], IsHexDigit) && x[|x| - 1] == '}')
  {
    if |x| >= 2 {
      assert x[1..][1..] == x[2..];
      if |x| >= 4 {
        assert x[1..][2..|x| - 2] == x[3..|x| - 1];
      }
    }
  }

  // `alpha`
  predicate IsAlpha(x: string, space: char -> bool) {
    (|x| == 1 && IsAlphaChar(x[0], space)) || IsUnicodeEscape(x)
  }

  // `alphanumeric`
  predicate IsAlphanumeric(x: string, space: char -> bool) {
    (|x| == 1 && IsAlphanumericChar(x[0], space)) || IsUnicodeEscape(x)
  }

  // `repeat(alphanumeric)`
  predicate IsAlphanumerics(x: string, space: char -> bool)
    decreases |x|, 1
  {
    x == [] || exists k: nat | k <= |x| :: UnitSplit(x, k, space)
  }

  // A first `alphanumeric` unit `x[..k]`, then the rest.
  predicate UnitSplit(x: string, k: nat, space: char -> bool)
    decreases |x|, 0
  {
    0 < k <= |x| && IsAlphanumeric(x[..k], space) && IsAlphanumerics(x[k..], space)
  }

  // `seq(alpha, repeat(alphanumeric))` with the `alpha` unit `x[..k]`.
  predicate IdentifierSplit(x: string, k: nat, space: char -> bool) {
    0 < k <= |x| && IsAlpha(x[..k], space) && IsAlphanumerics(x[k..], space)
  }

  // `identifier`
  predicate IsIdentifier(x: string, space: char -> bool) {
    exists k: nat | k <= |x| :: IdentifierSplit(x, k, space)
  }

  // `_reserved_identifier`: `choice("export", "import", "where")`
  predicate IsReservedIdentifier(x: string) {
    x == "export" || x == "import" || x == "where"
  }

  // ---------------------------------------------------------------------------
  // The scanner
  // ---------------------------------------------------------------------------

  // The end of the `\u` escape at `i`, or `None`.
  function EscapeEnd(s: string, i: nat): (e: Option<nat>)
    requires i <= |s|
    ensures e.Some? ==> i + 5 <= e.value <= |s|
  {
    if !(i + 2 < |s| && s[i] == '\\' && s[i + 1] == 'u') then None
    else if i + 6 <= |s| && All(s[i + 2..i + 6], IsHexDigit) then Some(i + 6)
    else if s[i + 2] == '{' then
      var j := SpanEnd(s, i + 3, IsHexDigit);
      if i + 3 < j < |s| && s[j] == '}' then Some(j + 1) else None
    else None
  }

  lemma EscapeEndSound(s: string, i: nat)
    requires i <= |s| && EscapeEnd(s, i).Some?
    ensures IsUnicodeEscape(s[i..EscapeEnd(s, i).value])
  {
    var e := EscapeEnd(s, i).value;
    var x := s[i..e];
    UnicodeEscapeForms(x);
    assert x[0] == s[i] && x[1] == s[i + 1] && x[2] == s[i + 2];
    if e == i + 6 && All(s[i + 2..i + 6], IsHexDigit) {
      SliceOfSlice(s, i, e, 2, 6);
    } else {
      SliceOfSlice(s, i, e, 3, e - i - 1);
      assert x[|x| - 1] == s[e - 1];
    }
  }

  lemma EscapeEndExact(s: string, i: nat, e: nat)
    requires i <= e <= |s| && IsUnicodeEscape(s[i..e])
    ensures EscapeEnd(s, i) == Some(e)
  {
    var x := s[i..e];
    UnicodeEscapeForms(x);
    assert x[0] == s[i] && x[1] == s[i + 1] && x[2] == s[i + 2];
    if |x| == 6 && All(x[2..], IsHexDigit) {
      SliceOfSlice(s, i, e, 2, 6);
    } else {
      SliceOfSlice(s, i, e, 3, e - i - 1);
      assert x[|x| - 1] == s[e - 1];
      SpanEndLongest(s, i + 3, e - 1, IsHexDigit);
      SpanEndStops(s, i + 3, e - 1, IsHexDigit);
    }
  }

  // The end of the `alphanumeric` unit at `i`, or `None`.
  function UnitEnd(s: string, i: nat, space: char -> bool): (e: Option<nat>)
    requires i <= |s|
    ensures e.Some? ==> i < e.value <= |s|
  {
    if i < |s| && IsAlphanumericChar(s[i], space) then Some(i + 1) else EscapeEnd(s, i)
  }

  // The end of the longest run of `alphanumeric` units from `i` on.
  function AlphanumericsEnd(s: string, i: nat, space: char -> bool): (e: nat)
    requires i <= |s|
    ensures i <= e <= |s|
    decreases |s| - i
  {
    match UnitEnd(s, i, space)
    case None => i
    case Some(j) => AlphanumericsEnd(s, j, space)
  }

  // The length of the identifier the lexer reads at `pos`, or `None`.
  function MatchIdentifier(s: string, pos: nat, space: char -> bool): (n: Option<nat>)
    requires pos <= |s|
    ensures n.Some? ==> 1 <= n.value && pos + n.value <= |s|
  {
    var first := if pos < |s| && IsAlphaChar(s[pos], space) then Some(pos + 1) else EscapeEnd(s, pos);
    match first
    case None => None
    case Some(j) => Some(AlphanumericsEnd(s, j, space) - pos)
  }

  // A unit followed by units is units.
  lemma ConsUnit(s: string, i: nat, m: nat, j: nat, space: char -> bool)
    requires i < m <= j <= |s| && IsAlphanumeric(s[i..m], space) && IsAlphanumerics(s[m..j], space)
    ensures IsAlphanumerics(s[i..j], space)
  {
    SliceOfSlice(s, i, j, 0, m - i);
    SliceOfSlice(s, i, j, m - i, j - i);
    assert UnitSplit(s[i..j], m - i, space);
  }

  lemma UnitEndSound(s: string, i: nat, space: char -> bool)
    requires i <= |s| && UnitEnd(s, i, space).Some?
    ensures IsAlphanumeric(s[i..UnitEnd(s, i, space).value], space)
  {
    if !(i < |s| && IsAlphanumericChar(s[i], space)) {
      EscapeEndSound(s, i);
    }
  }

  lemma {:induction false} AlphanumericsEndSound(s: string, i: nat, space: char -> bool)
    requires i <= |s|
    ensures IsAlphanumerics(s[i..AlphanumericsEnd(s, i, space)], space)
    decreases |s| - i
  {
    var e := AlphanumericsEnd(s, i, space);
    if UnitEnd(s, i, space).None? {
      assert s[i..e] == [];
    } else {
      var j := UnitEnd(s, i, space).value;
      UnitEndSound(s, i, space);
      AlphanumericsEndSound(s, j, space);
      ConsUnit(s, i, j, e, space);
    }
  }

  // What the scanner reads is an identifier.
  lemma MatchIdentifierSound(s: string, pos: nat, space: char -> bool)
    requires pos <= |s| && MatchIdentifier(s, pos, space).Some?
    ensures IsIdentifier(s[pos..pos + MatchIdentifier(s, pos, space).value], space)
  {
    var j := if pos < |s| && IsAlphaChar(s[pos], space) then pos + 1 else EscapeEnd(s, pos).value;
    var e := AlphanumericsEnd(s, j, space);
    if !(pos < |s| && IsAlphaChar(s[pos], space)) {
      EscapeEndSound(s, pos);
    }
    AlphanumericsEndSound(s, j, space);
    var x := s[pos..e];
    SliceOfSlice(s, pos, e, 0, j - pos);
    SliceOfSlice(s, pos, e, j - pos, e - pos);
    assert IdentifierSplit(x, j - pos, space);
  }

  // Reading the unit `s[i..m]` first, the scanner goes on from its end.
  lemma UnitStep(s: string, i: nat, m: nat, space: char -> bool)
    requires i < m <= |s| && IsAlphanumeric(s[i..m], space)
    ensures UnitEnd(s, i, space) == Some(m)
  {
    if m == i + 1 && IsAlphanumericChar(s[i..m][0], space) {
      assert s[i..m][0] == s[i];
    } else {
      assert s[i] == s[i..m][0];
      EscapeEndExact(s, i, m);
    }
  }

  // Reading the units `s[i..j]` first, the scanner goes on from `j` as it would have anyway.
  lemma {:induction false} AlphanumericsSkip(s: string, i: nat, j: nat, space: char -> bool)
    requires i <= j <= |s| && IsAlphanumerics(s[i..j], space)
    ensures AlphanumericsEnd(s, i, space) == AlphanumericsEnd(s, j, space)
    decreases j - i
  {
    if i < j {
      var k: nat :| k <= j - i && UnitSplit(s[i..j], k, space);
      SliceOfSlice(s, i, j, 0, k);
      SliceOfSlice(s, i, j, k, j - i);
      assert s[i..j][..k] == s[i..i + k];
      assert s[i..j][k..] == s[i + k..j];
      UnitStep(s, i, i + k, space);
      AlphanumericsSkip(s, i + k, j, space);
    }
  }

  // No identifier at `pos` is longer than the one the lexer reads.
  lemma IdentifierLongest(s: string, pos: nat, k: nat, space: char -> bool)
    requires pos <= k <= |s| && IsIdentifier(s[pos..k], space)
    ensures MatchIdentifier(s, pos, space).Some? && k <= pos + MatchIdentifier(s, pos, space).value
  {
    var m: nat :| m <= k - pos && IdentifierSplit(s[pos..k], m, space);
    SliceOfSlice(s, pos, k, 0, m);
    SliceOfSlice(s, pos, k, m, k - pos);
    assert s[pos..k][..m] == s[pos..pos + m];
    assert s[pos..k][m..] == s[pos + m..k];
    var a := s[pos..pos + m];
    assert a[0] == s[pos];
    if !(m == 1 && IsAlphaChar(a[0], space)) {
      EscapeEndExact(s, pos, pos + m);
    }
    AlphanumericsSkip(s, pos + m, k, space);
  }

  // ---------------------------------------------------------------------------
  // What the rule promises
  // ---------------------------------------------------------------------------

  // An identifier never starts with a digit.
  lemma IdentifierNotDigitFirst(x: string, space: char -> bool)
    requires IsIdentifier(x, space)
    ensures |x| > 0 && !IsDecDigit(x[0])
  {
    var k: nat :| k <= |x| && IdentifierSplit(x, k, space);
    assert IdentifierSplit(x, k, space);
    assert x[..k][0] == x[0];
  }

  // Without backslashes, an identifier is an `alpha` character and then `alphanumeric` characters.
  lemma {:induction false} PlainAlphanumerics(x: string, space: char -> bool)
    requires forall i | 0 <= i < |x| :: IsAlphanumericChar(x[i], space)
    ensures IsAlphanumerics(x, space)
    decreases |x|
  {
    if x != [] {
      var t := x[1..];
      forall i | 0 <= i < |t| ensures IsAlphanumericChar(t[i], space) {
        assert t[i] == x[i + 1];
      }
      PlainAlphanumerics(t, space);
      assert x[..1][0] == x[0];
      assert UnitSplit(x, 1, space);
    }
  }

  lemma PlainIdentifier(x: string, space: char -> bool)
    requires |x| > 0 && IsAlphaChar(x[0], space)
    requires forall i | 1 <= i < |x| :: IsAlphanumericChar(x[i], space)
    ensures IsIdentifier(x, space)
  {
    var t := x[1..];
    forall i | 0 <= i < |t| ensures IsAlphanumericChar(t[i], space) {
      assert t[i] == x[i + 1];
    }
    PlainAlphanumerics(t, space);
    assert x[..1][0] == x[0];
    assert IdentifierSplit(x, 1, space);
  }

  // A text with no backslash is an identifier exactly when it is a non-digit identifier character
  // followed by identifier characters.
  lemma PlainIdentifierIff(x: string, space: char -> bool)
    requires forall i | 0 <= i < |x| :: x[i] != '\\'
    ensures IsIdentifier(x, space) <==>
      (|x| > 0 && IsAlphaChar(x[0], space) && forall i | 1 <= i < |x| :: IsAlphanumericChar(x[i], space))
  {
    if IsIdentifier(x, space) {
      var k: nat :| k <= |x| && IdentifierSplit(x, k, space);
      assert IdentifierSplit(x, k, space);
      assert x[..k][0] == x[0];
      assert k == 1;
      forall i | 1 <= i < |x| ensures IsAlphanumericChar(x[i], space) {
        NoEscapeUnits(x[1..], space, i - 1);
        assert x[1..][i - 1] == x[i];
      }
    }
    if |x| > 0 && IsAlphaChar(x[0], space) && forall i | 1 <= i < |x| :: IsAlphanumericChar(x[i], space) {
      PlainIdentifier(x, space);
    }
  }

  // In units without a backslash, every unit is one character.
  lemma {:induction false} NoEscapeUnits(x: string, space: char -> bool, i: nat)
    requires IsAlphanumerics(x, space) && i < |x| && forall j | 0 <= j < |x| :: x[j] != '\\'
    ensures IsAlphanumericChar(x[i], space)
    decreases |x|
  {
    var k: nat :| k <= |x| && UnitSplit(x, k, space);
    assert UnitSplit(x, k, space);
    assert x[..k][0] == x[0];
    if i == 0 {
    } else {
      var t := x[1..];
      assert k == 1;
      forall j | 0 <= j < |t| ensures t[j] != '\\' {
        assert t[j] == x[j + 1];
      }
      assert t[i - 1] == x[i];
      NoEscapeUnits(t, space, i - 1);
    }
  }

  // The reserved words are identifiers too, for any reading of the space classes that leaves the
  // lower-case letters alone: the lexer reads them as `identifier` and then as the keyword.
  lemma ReservedAreIdentifiers(x: string, space: char -> bool)
    requires IsReservedIdentifier(x)
    requires forall c | 'a' <= c <= 'z' :: !space(c)
    ensures IsIdentifier(x, space)
  {
    forall i | 0 <= i < |x| ensures IsLowerLetter(x[i]) && x[i] !in BannedPunctuation {
    }
    PlainIdentifier(x, space);
  }
}
