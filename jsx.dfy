/**
 * Three JSX tokens of grammar.js: `jsx_text`, `html_character_reference`
 * and the hyphenated `jsx_identifier`.
 */
module Jsx {
  import opened Chars
  import opened Wrappers

  // ---------------------------------------------------------------------------
  // jsx_text
  // ---------------------------------------------------------------------------

  // `[^{}<>\n&]`
  predicate IsJsxTextChar(c: char) { c != '{' && c != '}' && c != '<' && c != '>' && c != '\n' && c != '&' }

  // `[^{}<>\n& ]`: what the text starts and ends with.
  predicate IsJsxTextEdge(c: char) { IsJsxTextChar(c) && c != ' ' }

  // `[^\n]`
  predicate NotNewline(c: char) { c != '\n' }

  // `/[^{}<>\n& ]([^{}<>\n&]*[^{}<>\n& ])?/`
  predicate IsPlainJsxText(t: string) {
    |t| >= 1 && IsJsxTextEdge(t[0]) &&
    (|t| == 1 || (All(t[1..|t| - 1], IsJsxTextChar) && IsJsxTextEdge(t[|t| - 1])))
  }

  // `/\/\/[^\n]*/`
  predicate IsSlashJsxText(t: string) { |t| >= 2 && t[0] == '/' && t[1] == '/' && All(t[2..], NotNewline) }

  // `jsx_text`
  predicate IsJsxText(t: string) { IsPlainJsxText(t) || IsSlashJsxText(t) }

  // JSX text never holds a newline.
  lemma JsxTextOneLine(t: string, i: nat)
    requires IsJsxText(t) && i < |t|
    ensures t[i] != '\n'
  {
    if IsPlainJsxText(t) {
      if 0 < i < |t| - 1 {
        assert t[i] == t[1..|t| - 1][i - 1];
      }
    } else if i >= 2 {
      assert t[i] == t[2..][i - 2];
    }
  }

  // The first form never starts or ends with a space, and holds none of `{`, `}`, `<`, `>`, `&`.
  lemma PlainJsxTextShape(t: string)
    requires IsPlainJsxText(t)
    ensures t[0] != ' ' && t[|t| - 1] != ' ' && All(t, IsJsxTextChar)
  {
    forall i | 0 <= i < |t| ensures IsJsxTextChar(t[i]) {
      if 0 < i < |t| - 1 {
        assert t[i] == t[1..|t| - 1][i - 1];
      }
    }
  }

  // The first form is exactly a run of text characters that neither starts nor ends with a space.
  lemma PlainJsxTextIff(t: string)
    ensures IsPlainJsxText(t) <==> |t| >= 1 && All(t, IsJsxTextChar) && t[0] != ' ' && t[|t| - 1] != ' '
  {
    if IsPlainJsxText(t) {
      PlainJsxTextShape(t);
    }
    if |t| >= 2 && All(t, IsJsxTextChar) {
      var u := t[1..|t| - 1];
      forall i | 0 <= i < |u| ensures IsJsxTextChar(u[i]) {
        assert u[i] == t[i + 1];
      }
    }
  }

  // The end of a run of text characters from `pos` to `r`, with its trailing spaces dropped.
  function TrimEnd(s: string, pos: nat, r: nat): (e: nat)
    requires pos < r <= |s| && s[pos] != ' '
    ensures pos < e <= r && s[e - 1] != ' '
    ensures forall j | e <= j < r :: s[j] == ' '
    decreases r
  {
    if s[r - 1] != ' ' then r else TrimEnd(s, pos, r - 1)
  }

  // The length of the text the lexer reads at `pos`: the longer of the two forms, or `None`.
  function MatchJsxText(s: string, pos: nat): (n: Option<nat>)
    requires pos <= |s|
    ensures n.Some? ==> 1 <= n.value && pos + n.value <= |s|
  {
    var plain := if pos < |s| && IsJsxTextEdge(s[pos]) then TrimEnd(s, pos, SpanEnd(s, pos, IsJsxTextChar)) - pos else 0;
    var slash := if pos + 1 < |s| && s[pos] == '/' && s[pos + 1] == '/' then SpanEnd(s, pos + 2, NotNewline) - pos else 0;
    if plain == 0 && slash == 0 then None
    else if plain >= slash then Some(plain)
    else Some(slash)
  }

  lemma MatchJsxTextSound(s: string, pos: nat)
    requires pos <= |s| && MatchJsxText(s, pos).Some?
    ensures IsJsxText(s[pos..pos + MatchJsxText(s, pos).value])
  {
    var n := MatchJsxText(s, pos).value;
    var t := s[pos..pos + n];
    if pos + 1 < |s| && s[pos] == '/' && s[pos + 1] == '/' && n == SpanEnd(s, pos + 2, NotNewline) - pos {
      assert t[2..] == s[pos + 2..pos + n];
      assert IsSlashJsxText(t);
    } else {
      var r := SpanEnd(s, pos, IsJsxTextChar);
      assert n == TrimEnd(s, pos, r) - pos;
      assert All(t, IsJsxTextChar) by {
        forall i | 0 <= i < |t| ensures IsJsxTextChar(t[i]) {
          assert t[i] == s[pos..r][i];
        }
      }
      PlainJsxTextIff(t);
    }
  }

  // No JSX text at `pos` is longer than the one the lexer reads.
  lemma JsxTextLongest(s: string, pos: nat, k: nat)
    requires pos <= k <= |s| && IsJsxText(s[pos..k])
    ensures MatchJsxText(s, pos).Some? && k <= pos + MatchJsxText(s, pos).value
  {
    var t := s[pos..k];
    assert t[0] == s[pos];
    if IsPlainJsxText(t) {
      PlainJsxTextShape(t);
      assert All(s[pos..k], IsJsxTextChar);
      SpanEndLongest(s, pos, k, IsJsxTextChar);
      var r := SpanEnd(s, pos, IsJsxTextChar);
      assert s[k - 1] == t[|t| - 1];
      assert k <= TrimEnd(s, pos, r);
    } else {
      assert t[1] == s[pos + 1];
      assert t[2..] == s[pos + 2..k];
      SpanEndLongest(s, pos + 2, k, NotNewline);
    }
  }

  // ---------------------------------------------------------------------------
  // html_character_reference
  // ---------------------------------------------------------------------------

  // `#[xX][0-9a-fA-F]{1,6}`
  predicate IsHexReference(b: string) {
    3 <= |b| <= 8 && b[0] == '#' && (b[1] == 'x' || b[1] == 'X') && All(b[2..], IsHexDigit)
  }

  // `#[0-9]{1,5}`
  predicate IsDecimalReference(b: string) {
    2 <= |b| <= 6 && b[0] == '#' && All(b[1..], IsDecDigit)
  }

  // `[A-Za-z]{1,30}`
  predicate IsNamedReference(b: string) {
    1 <= |b| <= 30 && All(b, IsAsciiLetter)
  }

  // `/&(#([xX][0-9a-fA-F]{1,6}|[0-9]{1,5})|[A-Za-z]{1,30});/`
  predicate IsCharacterReference(r: string) {
    |r| >= 3 && r[0] == '&' && r[|r| - 1] == ';' &&
    (IsHexReference(r[1..|r| - 1]) || IsDecimalReference(r[1..|r| - 1]) || IsNamedReference(r[1..|r| - 1]))
  }

  // A reference is between 3 and 32 characters long and holds `;` only at its end.
  lemma CharacterReferenceShape(r: string, i: nat)
    requires IsCharacterReference(r) && i < |r| - 1
    ensures 3 <= |r| <= 32 && r[i] != ';' && (r[i] == '&') == (i == 0)
  {
    var b := r[1..|r| - 1];
    if i > 0 {
      assert r[i] == b[i - 1];
      if IsHexReference(b) && i > 2 {
        assert b[i - 1] == b[2..][i - 3];
      } else if IsDecimalReference(b) && i > 1 {
        assert b[i - 1] == b[1..][i - 2];
      }
    }
  }

  // The end of a run of `P`-characters from `i`, if it holds `lo` to `hi` of them and `;` follows.
  function BoundedRunThenSemicolon(s: string, i: nat, lo: nat, hi: nat, P: char -> bool): (e: Option<nat>)
    requires i <= |s|
    ensures e.Some? ==> i + lo < e.value <= |s| && e.value <= i + hi + 1 && s[e.value - 1] == ';'
    ensures e.Some? ==> All(s[i..e.value - 1], P)
  {
    var j := SpanEnd(s, i, P);
    if lo <= j - i <= hi && j < |s| && s[j] == ';' then Some(j + 1) else None
  }

  // The length of the character reference the lexer reads at `pos`, or `None`.
  function MatchCharacterReference(s: string, pos: nat): (n: Option<nat>)
    requires pos <= |s|
    ensures n.Some? ==> 3 <= n.value && pos + n.value <= |s|
  {
    if !(pos + 1 < |s| && s[pos] == '&') then None
    else
      var e :=
        if s[pos + 1] != '#' then BoundedRunThenSemicolon(s, pos + 1, 1, 30, IsAsciiLetter)
        else if pos + 2 < |s| && (s[pos + 2] == 'x' || s[pos + 2] == 'X') then BoundedRunThenSemicolon(s, pos + 3, 1, 6, IsHexDigit)
        else BoundedRunThenSemicolon(s, pos + 2, 1, 5, IsDecDigit);
      match e
      case None => None
      case Some(j) => Some(j - pos)
  }

  // `&`, a reference body and `;` make a character reference.
  lemma ReferenceFromBody(s: string, pos: nat, k: nat)
    requires pos + 2 < k <= |s| && s[pos] == '&' && s[k - 1] == ';'
    requires var b := s[pos + 1..k - 1]; IsHexReference(b) || IsDecimalReference(b) || IsNamedReference(b)
    ensures IsCharacterReference(s[pos..k])
  {
    var r := s[pos..k];
    SliceOfSlice(s, pos, k, 1, k - pos - 1);
    assert r[0] == s[pos] && r[|r| - 1] == s[k - 1];
  }

  lemma MatchCharacterReferenceSound(s: string, pos: nat)
    requires pos <= |s| && MatchCharacterReference(s, pos).Some?
    ensures IsCharacterReference(s[pos..pos + MatchCharacterReference(s, pos).value])
  {
    var e := pos + MatchCharacterReference(s, pos).value;
    var b := s[pos + 1..e - 1];
    assert b[0] == s[pos + 1];
    if s[pos + 1] != '#' {
      assert IsNamedReference(b);
    } else if s[pos + 2] == 'x' || s[pos + 2] == 'X' {
      SliceOfSlice(s, pos + 1, e - 1, 2, |b|);
      assert b[1] == s[pos + 2];
      assert IsHexReference(b);
    } else {
      SliceOfSlice(s, pos + 1, e - 1, 1, |b|);
      assert IsDecimalReference(b);
    }
    ReferenceFromBody(s, pos, e);
  }

  // A run of `lo` to `hi` `P`-characters closed by `;` is exactly what the helper finds.
  lemma BoundedRunExact(s: string, i: nat, j: nat, lo: nat, hi: nat, P: char -> bool)
    requires i <= j < |s| && s[j] == ';' && !P(';') && lo <= j - i <= hi && All(s[i..j], P)
    ensures BoundedRunThenSemicolon(s, i, lo, hi, P) == Some(j + 1)
  {
    SpanEndLongest(s, i, j, P);
    SpanEndStops(s, i, j, P);
  }

  // The body of the reference `s[pos..k]`, read back in `s`'s own indices.
  lemma ReferenceBodyAt(s: string, pos: nat, k: nat)
    requires pos <= k <= |s| && IsCharacterReference(s[pos..k])
    ensures pos + 2 < k && s[pos] == '&' && s[k - 1] == ';'
    ensures var b := s[pos + 1..k - 1]; IsHexReference(b) || IsDecimalReference(b) || IsNamedReference(b)
  {
    var r := s[pos..k];
    SliceOfSlice(s, pos, k, 1, k - pos - 1);
    assert r[0] == s[pos] && r[|r| - 1] == s[k - 1];
  }

  lemma HexReferenceExact(s: string, pos: nat, k: nat)
    requires pos + 2 < k <= |s| && s[pos] == '&' && s[k - 1] == ';' && IsHexReference(s[pos + 1..k - 1])
    ensures MatchCharacterReference(s, pos) == Some(k - pos)
  {
    var b := s[pos + 1..k - 1];
    assert b[0] == s[pos + 1] && b[1] == s[pos + 2];
    SliceOfSlice(s, pos + 1, k - 1, 2, |b|);
    BoundedRunExact(s, pos + 3, k - 1, 1, 6, IsHexDigit);
  }

  lemma DecimalReferenceExact(s: string, pos: nat, k: nat)
    requires pos + 2 < k <= |s| && s[pos] == '&' && s[k - 1] == ';' && IsDecimalReference(s[pos + 1..k - 1])
    ensures MatchCharacterReference(s, pos) == Some(k - pos)
  {
    var b := s[pos + 1..k - 1];
    assert b[0] == s[pos + 1] && b[1] == s[pos + 2];
    SliceOfSlice(s, pos + 1, k - 1, 1, |b|);
    BoundedRunExact(s, pos + 2, k - 1, 1, 5, IsDecDigit);
  }

  lemma NamedReferenceExact(s: string, pos: nat, k: nat)
    requires pos + 2 < k <= |s| && s[pos] == '&' && s[k - 1] == ';' && IsNamedReference(s[pos + 1..k - 1])
    ensures MatchCharacterReference(s, pos) == Some(k - pos)
  {
    var b := s[pos + 1..k - 1];
    assert b[0] == s[pos + 1];
    BoundedRunExact(s, pos + 1, k - 1, 1, 30, IsAsciiLetter);
  }

  // A character reference at `pos` is exactly the one the lexer reads.
  lemma CharacterReferenceExact(s: string, pos: nat, k: nat)
    requires pos <= k <= |s| && IsCharacterReference(s[pos..k])
    ensures MatchCharacterReference(s, pos) == Some(k - pos)
  {
    ReferenceBodyAt(s, pos, k);
    var b := s[pos + 1..k - 1];
    if IsHexReference(b) {
      HexReferenceExact(s, pos, k);
    } else if IsDecimalReference(b) {
      DecimalReferenceExact(s, pos, k);
    } else {
      NamedReferenceExact(s, pos, k);
    }
  }

  // ---------------------------------------------------------------------------
  // jsx_identifier
  // ---------------------------------------------------------------------------

  // `[a-zA-Z_$]`
  predicate IsJsxIdentifierStart(c: char) { IsAsciiLetter(c) || c == '_' || c == '$' }

  // `[a-zA-Z\d_$]`
  predicate IsJsxIdentifierPart(c: char) { IsJsxIdentifierStart(c) || IsDecDigit(c) }

  // `[a-zA-Z\d_$\-]`
  predicate IsJsxIdentifierPartOrDash(c: char) { IsJsxIdentifierPart(c) || c == '-' }

  // `/[a-zA-Z_$][a-zA-Z\d_$]*-[a-zA-Z\d_$\-]*/` with the first dash at `d`.
  predicate DashSplit(x: string, d: nat) {
    0 < d < |x| && IsJsxIdentifierStart(x[0]) && All(x[1..d], IsJsxIdentifierPart) &&
    x[d] == '-' && All(x[d + 1..], IsJsxIdentifierPartOrDash)
  }

  // `jsx_identifier`
  predicate IsJsxIdentifier(x: string) {
    exists d: nat | d < |x| :: DashSplit(x, d)
  }

  // A hyphenated identifier is a name start, then name characters and dashes, at least one of them a dash.
  lemma JsxIdentifierIff(x: string)
    ensures IsJsxIdentifier(x) <==>
      (|x| >= 2 && IsJsxIdentifierStart(x[0]) && All(x[1..], IsJsxIdentifierPartOrDash) &&
       exists i | 0 <= i < |x| :: x[i] == '-')
  {
    if IsJsxIdentifier(x) {
      var d: nat :| d < |x| && DashSplit(x, d);
      assert DashSplit(x, d);
      forall i | 1 <= i < |x| ensures IsJsxIdentifierPartOrDash(x[i]) {
        if i < d {
          assert x[i] == x[1..d][i - 1];
        } else if i > d {
          assert x[i] == x[d + 1..][i - d - 1];
        }
      }
      assert All(x[1..], IsJsxIdentifierPartOrDash) by {
        forall i | 0 <= i < |x| - 1 ensures IsJsxIdentifierPartOrDash(x[1..][i]) {
          assert x[1..][i] == x[i + 1];
        }
      }
    }
    if |x| >= 2 && IsJsxIdentifierStart(x[0]) && All(x[1..], IsJsxIdentifierPartOrDash) &&
       exists i | 0 <= i < |x| :: x[i] == '-' {
      var i :| 0 <= i < |x| && x[i] == '-';
      var d := SpanEnd(x, 1, IsJsxIdentifierPart);
      SpanEndStops(x, 1, i, IsJsxIdentifierPart);
      assert IsJsxIdentifierPartOrDash(x[1..][d - 1]);
      var w := x[d + 1..];
      assert All(w, IsJsxIdentifierPartOrDash) by {
        forall j | 0 <= j < |w| ensures IsJsxIdentifierPartOrDash(w[j]) {
          assert w[j] == x[1..][d + j];
        }
      }
      assert DashSplit(x, d);
    }
  }

  // The length of the hyphenated identifier the lexer reads at `pos`, or `None`.
  function MatchJsxIdentifier(s: string, pos: nat): (n: Option<nat>)
    requires pos <= |s|
    ensures n.Some? ==> 2 <= n.value && pos + n.value <= |s|
  {
    if pos < |s| && IsJsxIdentifierStart(s[pos]) then
      var d := SpanEnd(s, pos + 1, IsJsxIdentifierPart);
      if d < |s| && s[d] == '-' then Some(SpanEnd(s, d + 1, IsJsxIdentifierPartOrDash) - pos) else None
    else None
  }

  lemma MatchJsxIdentifierSound(s: string, pos: nat)
    requires pos <= |s| && MatchJsxIdentifier(s, pos).Some?
    ensures IsJsxIdentifier(s[pos..pos + MatchJsxIdentifier(s, pos).value])
  {
    var n := MatchJsxIdentifier(s, pos).value;
    var x := s[pos..pos + n];
    var d := SpanEnd(s, pos + 1, IsJsxIdentifierPart);
    SliceOfSlice(s, pos, pos + n, 1, d - pos);
    SliceOfSlice(s, pos, pos + n, d - pos + 1, n);
    assert x[d - pos + 1..] == x[d - pos + 1..n];
    assert DashSplit(x, d - pos);
  }

  // The parts of the identifier `s[pos..k]` whose first dash is at `d`, read back in `s`'s own indices.
  lemma DashSplitAt(s: string, pos: nat, k: nat, d: nat)
    requires pos <= k <= |s| && DashSplit(s[pos..k], d)
    ensures pos + d < k && IsJsxIdentifierStart(s[pos]) && s[pos + d] == '-'
    ensures All(s[pos + 1..pos + d], IsJsxIdentifierPart) && All(s[pos + d + 1..k], IsJsxIdentifierPartOrDash)
  {
    var x := s[pos..k];
    assert x[0] == s[pos] && x[d] == s[pos + d];
    SliceOfSlice(s, pos, k, 1, d);
    SliceOfSlice(s, pos, k, d + 1, k - pos);
    assert x[d + 1..] == x[d + 1..k - pos];
  }

  // No hyphenated identifier at `pos` is longer than the one the lexer reads.
  lemma JsxIdentifierLongest(s: string, pos: nat, k: nat)
    requires pos <= k <= |s| && IsJsxIdentifier(s[pos..k])
    ensures MatchJsxIdentifier(s, pos).Some? && k <= pos + MatchJsxIdentifier(s, pos).value
  {
    var d: nat :| d < k - pos && DashSplit(s[pos..k], d);
    DashSplitAt(s, pos, k, d);
    SpanEndLongest(s, pos + 1, pos + d, IsJsxIdentifierPart);
    SpanEndStops(s, pos + 1, pos + d, IsJsxIdentifierPart);
    SpanEndLongest(s, pos + d + 1, k, IsJsxIdentifierPartOrDash);
  }
}
