/**
 * The `escape_sequence` token of grammar.js: a backslash, then one of six
 * forms. The lexer reads it as one token, so it takes the longest form that
 * matches.
 */
module Escapes {
  import opened Chars
  import opened Wrappers

  // `[^xu0-7]`: any one character that does not open another form, line breaks included.
  predicate IsSingleEscapeChar(c: char) { c != 'x' && c != 'u' && !IsOctDigit(c) }

  // `[\r?]`: the class holds the two characters CR and `?`.
  predicate IsContinuationLead(c: char) { c == '\r' || c == '?' }

  // `[\n\u2028\u2029]`
  predicate IsContinuationEnd(c: char) { c == '\n' || c == LineSeparator || c == ParagraphSeparator }

  // The six alternatives of the `choice` after the backslash, in order.
  datatype EscapeForm = Single | Octal | Hex2 | Unicode4 | UnicodeBraced | LineContinuation

  // What follows the backslash, read as form `f`.
  predicate IsEscapeForm(b: string, f: EscapeForm) {
    match f
    case Single => |b| == 1 && IsSingleEscapeChar(b[0])
    case Octal => 1 <= |b| <= 3 && All(b, IsOctDigit)
    case Hex2 => |b| == 3 && b[0] == 'x' && IsHexDigit(b[1]) && IsHexDigit(b[2])
    case Unicode4 => |b| == 5 && b[0] == 'u' && All(b[1..], IsHexDigit)
    case UnicodeBraced => |b| >= 4 && b[0] == 'u' && b[1] == '{' && All(b[2..|b| - 1], IsHexDigit) && b[|b| - 1] == '}'
    case LineContinuation => |b| == 2 && IsContinuationLead(b[0]) && IsContinuationEnd(b[1])
  }

  // The `choice` after the backslash.
  predicate IsEscapeBody(b: string) {
    || IsEscapeForm(b, Single)
    || IsEscapeForm(b, Octal)
    || IsEscapeForm(b, Hex2)
    || IsEscapeForm(b, Unicode4)
    || IsEscapeForm(b, UnicodeBraced)
    || IsEscapeForm(b, LineContinuation)
  }

  // `escape_sequence`: `seq("\\", choice(...))`
  predicate IsEscapeSequence(s: string) {
    |s| >= 1 && s[0] == '\\' && IsEscapeBody(s[1..])
  }

  // ---------------------------------------------------------------------------
  // The six forms are exclusive
  // ---------------------------------------------------------------------------

  // The form an escape body is read as, decided by its first character and its length.
  function FormOf(b: string): EscapeForm
    requires |b| > 0
  {
    if IsOctDigit(b[0]) then Octal
    else if b[0] == 'x' then Hex2
    else if b[0] == 'u' then (if |b| == 5 && b[1] != '{' then Unicode4 else UnicodeBraced)
    else if |b| == 2 then LineContinuation
    else Single
  }

  // An escape body is in exactly one of the six forms, the one `FormOf` names.
  lemma EscapeFormUnique(b: string, f: EscapeForm)
    requires IsEscapeForm(b, f)
    ensures |b| > 0 && f == FormOf(b)
  {
    if f == Octal {
      assert IsOctDigit(b[0]);
    } else if f == Unicode4 {
      assert IsHexDigit(b[1..][0]);
    }
  }

  // ---------------------------------------------------------------------------
  // The scanner
  // ---------------------------------------------------------------------------

  // The length of the escape sequence that the lexer reads at the backslash `s[pos]`, or `None`.
  function MatchEscape(s: string, pos: nat): (n: Option<nat>)
    requires pos <= |s|
    ensures n.Some? ==> 2 <= n.value && pos + n.value <= |s| && s[pos] == '\\'
  {
    if !(pos + 1 < |s| && s[pos] == '\\') then None
    else
      var c := s[pos + 1];
      if IsOctDigit(c) then
        var e := SpanEnd(s, pos + 1, IsOctDigit);
        Some(if e - pos - 1 <= 3 then e - pos else 4)
      else if c == 'x' then
        if pos + 3 < |s| && IsHexDigit(s[pos + 2]) && IsHexDigit(s[pos + 3]) then Some(4) else None
      else if c == 'u' then
        if pos + 5 < |s| && All(s[pos + 2..pos + 6], IsHexDigit) then Some(6)
        else if pos + 2 < |s| && s[pos + 2] == '{' then
          var e := SpanEnd(s, pos + 3, IsHexDigit);
          if pos + 3 < e < |s| && s[e] == '}' then Some(e + 1 - pos) else None
        else None
      else if IsContinuationLead(c) && pos + 2 < |s| && IsContinuationEnd(s[pos + 2]) then Some(3)
      else Some(2)
  }

  // What the scanner reads is an escape sequence.
  lemma MatchEscapeSound(s: string, pos: nat)
    requires pos <= |s| && MatchEscape(s, pos).Some?
    ensures IsEscapeSequence(s[pos..pos + MatchEscape(s, pos).value])
  {
    var n := MatchEscape(s, pos).value;
    var b := s[pos..pos + n][1..];
    assert b == s[pos + 1..pos + n];
    var c := s[pos + 1];
    if IsOctDigit(c) {
      var e := SpanEnd(s, pos + 1, IsOctDigit);
      assert All(b, IsOctDigit) by {
        forall i | 0 <= i < |b| ensures IsOctDigit(b[i]) {
          assert b[i] == s[pos + 1..e][i];
        }
      }
      assert IsEscapeForm(b, Octal);
    } else if c == 'x' {
      assert IsEscapeForm(b, Hex2);
    } else if c == 'u' && pos + 5 < |s| && All(s[pos + 2..pos + 6], IsHexDigit) {
      SliceOfSlice(s, pos + 1, pos + n, 1, |b|);
      assert IsEscapeForm(b, Unicode4);
    } else if c == 'u' {
      var e := SpanEnd(s, pos + 3, IsHexDigit);
      SliceOfSlice(s, pos + 1, pos + n, 2, |b| - 1);
      assert IsEscapeForm(b, UnicodeBraced);
    } else if n == 3 {
      assert IsEscapeForm(b, LineContinuation);
    } else {
      assert IsEscapeForm(b, Single);
    }
  }

  // The scanner finds an escape sequence wherever one starts, and none is longer than the one it finds.
  lemma EscapeLongest(s: string, pos: nat, k: nat)
    requires pos <= k <= |s| && IsEscapeSequence(s[pos..k])
    ensures MatchEscape(s, pos).Some? && k <= pos + MatchEscape(s, pos).value
  {
    var b := s[pos..k][1..];
    assert b == s[pos + 1..k];
    assert s[pos] == s[pos..k][0];
    if IsEscapeForm(b, Octal) {
      assert IsOctDigit(b[0]);
      SpanEndLongest(s, pos + 1, k, IsOctDigit);
    } else if IsEscapeForm(b, UnicodeBraced) {
      SliceOfSlice(s, pos + 1, k, 2, |b| - 1);
      SpanEndLongest(s, pos + 3, k - 1, IsHexDigit);
      assert s[k - 1] == b[|b| - 1];
      SpanEndStops(s, pos + 3, k - 1, IsHexDigit);
    } else if IsEscapeForm(b, Unicode4) {
      SliceOfSlice(s, pos + 1, k, 1, |b|);
    }
  }

  // Past the end of an escape sequence, the longer one the scanner reads holds only
  // more octal digits or the end of a line continuation.
  lemma EscapeOverhang(s: string, pos: nat, k: nat)
    requires pos <= k <= |s| && IsEscapeSequence(s[pos..k])
    ensures MatchEscape(s, pos).Some?
    ensures forall j | k <= j < pos + MatchEscape(s, pos).value :: IsOctDigit(s[j]) || IsContinuationEnd(s[j])
  {
    EscapeLongest(s, pos, k);
    var b := s[pos..k][1..];
    assert b == s[pos + 1..k];
    var c := s[pos + 1];
    if IsOctDigit(c) {
      var e := SpanEnd(s, pos + 1, IsOctDigit);
      forall j | k <= j < pos + MatchEscape(s, pos).value ensures IsOctDigit(s[j]) {
        assert s[j] == s[pos + 1..e][j - pos - 1];
      }
    } else if IsEscapeForm(b, UnicodeBraced) {
      SliceOfSlice(s, pos + 1, k, 2, |b| - 1);
      SpanEndLongest(s, pos + 3, k - 1, IsHexDigit);
      assert s[k - 1] == b[|b| - 1];
      SpanEndStops(s, pos + 3, k - 1, IsHexDigit);
    }
  }
}
