/**
 * The `string` rule of grammar.js: a double- or single-quoted literal whose
 * body is a sequence of unescaped fragments and escape sequences. The
 * fragment tokens `unescaped_double_string_fragment` and
 * `unescaped_single_string_fragment` differ only in the quote they exclude,
 * so both are one predicate over the quote `q`.
 */
module Strings {
  import opened Chars
  import opened Wrappers
  import opened Escapes

  // The two quotes a string opens and closes with.
  predicate IsQuote(q: char) { q == '"' || q == '\'' }

  // `[^"\\\r\n]` when `q` is `"`, `[^'\\\r\n]` when `q` is `'`.
  predicate IsFragmentChar(c: char, q: char) {
    c != q && c != '\\' && c != '\r' && c != '\n'
  }

  // `/[^"\\\r\n]+/` and `/[^'\\\r\n]+/`
  predicate IsFragment(f: string, q: char) {
    |f| > 0 && forall i | 0 <= i < |f| :: IsFragmentChar(f[i], q)
  }

  // `choice(alias(fragment, $.string_fragment), $.escape_sequence)`
  predicate IsPiece(p: string, q: char) {
    IsFragment(p, q) || IsEscapeSequence(p)
  }

  // `repeat(choice(fragment, escape_sequence))`
  predicate IsStringBody(b: string, q: char)
    decreases |b|, 1
  {
    b == [] || exists k: nat | k <= |b| :: PieceSplit(b, q, k)
  }

  // A first piece `b[..k]`, then the rest of a body.
  predicate PieceSplit(b: string, q: char, k: nat)
    decreases |b|, 0
  {
    0 < k <= |b| && IsPiece(b[..k], q) && IsStringBody(b[k..], q)
  }

  // `string`: `seq('"', repeat(...), '"')` or `seq("'", repeat(...), "'")`
  predicate IsString(s: string) {
    |s| >= 2 && IsQuote(s[0]) && s[|s| - 1] == s[0] && IsStringBody(s[1..|s| - 1], s[0])
  }

  // ---------------------------------------------------------------------------
  // Facts about bodies
  // ---------------------------------------------------------------------------

  // A piece followed by a body is a body.
  lemma ConsPiece(s: string, i: nat, m: nat, j: nat, q: char)
    requires i < m <= j <= |s| && IsPiece(s[i..m], q) && IsStringBody(s[m..j], q)
    ensures IsStringBody(s[i..j], q)
  {
    SliceOfSlice(s, i, j, 0, m - i);
    SliceOfSlice(s, i, j, m - i, j - i);
    assert PieceSplit(s[i..j], q, m - i);
  }

  // A body starts with a fragment character or with the backslash of an escape.
  lemma BodyHead(b: string, q: char)
    requires IsStringBody(b, q) && |b| > 0
    ensures IsFragmentChar(b[0], q) || b[0] == '\\'
  {
    var k: nat :| k <= |b| && PieceSplit(b, q, k);
    assert PieceSplit(b, q, k);
    assert b[0] == b[..k][0];
  }

  // Dropping the first character of a body that is a fragment character leaves a body.
  lemma DropFragmentChar(b: string, q: char)
    requires IsStringBody(b, q) && |b| > 0 && IsFragmentChar(b[0], q)
    ensures IsStringBody(b[1..], q)
  {
    var k: nat :| k <= |b| && PieceSplit(b, q, k);
    assert PieceSplit(b, q, k);
    assert b[..k][0] == b[0];
    if k > 1 {
      var f := b[..k];
      assert IsFragment(f[1..], q) by {
        forall i | 0 <= i < |f[1..]| ensures IsFragmentChar(f[1..][i], q) {
          assert f[1..][i] == f[i + 1];
        }
      }
      assert b[1..][..k - 1] == f[1..];
      assert b[1..][k - 1..] == b[k..];
      assert PieceSplit(b[1..], q, k - 1);
    } else {
      assert b[1..] == b[k..];
    }
  }

  // Dropping a prefix of fragment characters from a body that ends before a quote leaves a body.
  lemma {:induction false} DropFragmentPrefix(s: string, a: nat, c: nat, k: nat, q: char)
    requires a <= c <= k <= |s| && IsStringBody(s[a..k], q)
    requires forall j | a <= j < c :: IsFragmentChar(s[j], q)
    ensures IsStringBody(s[c..k], q)
    decreases c - a
  {
    if a < c {
      assert s[a..k][0] == s[a];
      DropFragmentChar(s[a..k], q);
      assert s[a..k][1..] == s[a + 1..k];
      DropFragmentPrefix(s, a + 1, c, k, q);
    }
  }

  // Octal digits and line-continuation ends inside a body followed by quote `s[k]` are fragment characters,
  // and they stop before `k`.
  lemma {:induction false} DropOverhang(s: string, a: nat, c: nat, k: nat, q: char)
    requires a <= c && a <= k < |s| && IsQuote(q) && s[k] == q && IsStringBody(s[a..k], q)
    requires c <= |s| && forall j | a <= j < c :: IsOctDigit(s[j]) || IsContinuationEnd(s[j])
    ensures c <= k && IsStringBody(s[c..k], q)
    decreases c - a
  {
    if a < c && a != k {
      assert s[a..k][0] == s[a];
      BodyHead(s[a..k], q);
      DropFragmentChar(s[a..k], q);
      assert s[a..k][1..] == s[a + 1..k];
      DropOverhang(s, a + 1, c, k, q);
    }
  }

  // ---------------------------------------------------------------------------
  // The scanner
  // ---------------------------------------------------------------------------

  // The end of the longest run of fragment characters from `i` on: the fragment token the lexer reads.
  function FragmentEnd(s: string, i: nat, q: char): (j: nat)
    requires i <= |s|
    ensures i <= j <= |s|
    decreases |s| - i
  {
    if i < |s| && IsFragmentChar(s[i], q) then FragmentEnd(s, i + 1, q) else i
  }

  lemma {:induction false} FragmentEndChars(s: string, i: nat, q: char)
    requires i <= |s|
    ensures forall j | i <= j < FragmentEnd(s, i, q) :: IsFragmentChar(s[j], q)
    ensures FragmentEnd(s, i, q) < |s| ==> !IsFragmentChar(s[FragmentEnd(s, i, q)], q)
    decreases |s| - i
  {
    if i < |s| && IsFragmentChar(s[i], q) {
      FragmentEndChars(s, i + 1, q);
    }
  }

  // What the lexer reads at a fragment character is a fragment token.
  lemma FragmentEndIsFragment(s: string, i: nat, q: char)
    requires i < |s| && IsFragmentChar(s[i], q)
    ensures IsFragment(s[i..FragmentEnd(s, i, q)], q)
  {
    var f := FragmentEnd(s, i, q);
    FragmentEndChars(s, i, q);
    forall j | 0 <= j < f - i ensures IsFragmentChar(s[i..f][j], q) {
      assert s[i..f][j] == s[i + j];
    }
  }

  // The end of the piece token the lexer reads at `i` inside a body: an escape sequence at a
  // backslash, a fragment at a fragment character; `None` at CR, LF, a bad escape or the quote.
  function NextPiece(s: string, i: nat, q: char): (j: Option<nat>)
    requires i < |s|
    ensures j.Some? ==> i < j.value <= |s|
  {
    if s[i] == '\\' then
      match MatchEscape(s, i)
      case None => None
      case Some(n) => Some(i + n)
    else if IsFragmentChar(s[i], q) then Some(FragmentEnd(s, i, q))
    else None
  }

  lemma NextPieceSound(s: string, i: nat, q: char)
    requires i < |s| && NextPiece(s, i, q).Some?
    ensures IsPiece(s[i..NextPiece(s, i, q).value], q)
  {
    if s[i] == '\\' {
      MatchEscapeSound(s, i);
    } else {
      FragmentEndIsFragment(s, i, q);
    }
  }

  // The index just past the closing quote of a string body that starts at `i`, or `None`.
  function ScanBody(s: string, i: nat, q: char): (e: Option<nat>)
    requires i <= |s|
    ensures e.Some? ==> i < e.value <= |s|
    decreases |s| - i
  {
    if i == |s| then None
    else if s[i] == q then Some(i + 1)
    else
      match NextPiece(s, i, q)
      case None => None
      case Some(j) => ScanBody(s, j, q)
  }

  lemma {:induction false} ScanBodySound(s: string, i: nat, q: char)
    requires i <= |s| && ScanBody(s, i, q).Some?
    ensures s[ScanBody(s, i, q).value - 1] == q
    ensures IsStringBody(s[i..ScanBody(s, i, q).value - 1], q)
    decreases |s| - i
  {
    var e := ScanBody(s, i, q).value;
    if s[i] == q {
      assert s[i..i] == [];
    } else {
      var j := NextPiece(s, i, q).value;
      NextPieceSound(s, i, q);
      ScanBodySound(s, j, q);
      ConsPiece(s, i, j, e - 1, q);
    }
  }

  // The first piece of the body `s[i..k]`, read back in `s`'s own indices.
  lemma PieceAt(s: string, i: nat, k: nat, q: char, m: nat)
    requires i <= k <= |s| && PieceSplit(s[i..k], q, m)
    ensures i + m <= k && IsPiece(s[i..i + m], q) && IsStringBody(s[i + m..k], q)
  {
    SliceOfSlice(s, i, k, 0, m);
    SliceOfSlice(s, i, k, m, k - i);
    assert s[i..k][..m] == s[i..i + m];
    assert s[i..k][m..] == s[i + m..k];
  }

  // Past an escape sequence that opens a body ending before quote `s[k]`, the rest is a body again.
  lemma EscapeStep(s: string, i: nat, k: nat, q: char)
    requires i < k < |s| && IsQuote(q) && s[k] == q && IsStringBody(s[i..k], q) && s[i] == '\\'
    ensures MatchEscape(s, i).Some? && i + MatchEscape(s, i).value <= k
    ensures IsStringBody(s[i + MatchEscape(s, i).value..k], q)
  {
    var m: nat :| m <= k - i && PieceSplit(s[i..k], q, m);
    PieceAt(s, i, k, q, m);
    assert s[i..i + m][0] == '\\';
    EscapeLongest(s, i, i + m);
    EscapeOverhang(s, i, i + m);
    DropOverhang(s, i + m, i + MatchEscape(s, i).value, k, q);
  }

  // Past the fragment token that opens a body ending before quote `s[k]`, the rest is a body again.
  lemma FragmentStep(s: string, i: nat, k: nat, q: char)
    requires i < k < |s| && IsQuote(q) && s[k] == q && IsStringBody(s[i..k], q)
    ensures FragmentEnd(s, i, q) <= k && IsStringBody(s[FragmentEnd(s, i, q)..k], q)
  {
    var f := FragmentEnd(s, i, q);
    FragmentEndChars(s, i, q);
    DropFragmentPrefix(s, i, f, k, q);
  }

  lemma {:induction false} ScanBodyComplete(s: string, i: nat, k: nat, q: char)
    requires i <= k < |s| && IsQuote(q) && s[k] == q && IsStringBody(s[i..k], q)
    ensures ScanBody(s, i, q) == Some(k + 1)
    decreases k - i
  {
    if i < k {
      assert s[i..k][0] == s[i];
      BodyHead(s[i..k], q);
      if s[i] == '\\' {
        EscapeStep(s, i, k, q);
      } else {
        FragmentStep(s, i, k, q);
      }
      ScanBodyComplete(s, NextPiece(s, i, q).value, k, q);
    }
  }

  // The length of the string literal the parser reads at the quote `s[pos]`, or `None`.
  function MatchString(s: string, pos: nat): (n: Option<nat>)
    requires pos <= |s|
    ensures n.Some? ==> 2 <= n.value && pos + n.value <= |s|
  {
    if pos < |s| && IsQuote(s[pos]) then
      match ScanBody(s, pos + 1, s[pos])
      case None => None
      case Some(e) => Some(e - pos)
    else None
  }

  // What the scanner reads is a string literal.
  lemma MatchStringSound(s: string, pos: nat)
    requires pos <= |s| && MatchString(s, pos).Some?
    ensures IsString(s[pos..pos + MatchString(s, pos).value])
  {
    var e := ScanBody(s, pos + 1, s[pos]).value;
    ScanBodySound(s, pos + 1, s[pos]);
    var t := s[pos..e];
    assert s[pos..pos + MatchString(s, pos).value] == t;
    SliceOfSlice(s, pos, e, 1, e - pos - 1);
    assert t[0] == s[pos];
    assert t[|t| - 1] == s[e - 1];
  }

  // A string literal that starts at `pos` is exactly the one the scanner reads: it ends at the
  // first quote of its kind that is not the body of an escape sequence.
  lemma MatchStringComplete(s: string, pos: nat, k: nat)
    requires pos <= k <= |s| && IsString(s[pos..k])
    ensures MatchString(s, pos) == Some(k - pos)
  {
    var t := s[pos..k];
    SliceOfSlice(s, pos, k, 1, |t| - 1);
    assert s[pos] == t[0];
    assert s[k - 1] == t[|t| - 1];
    ScanBodyComplete(s, pos + 1, k - 1, s[pos]);
  }

  // ---------------------------------------------------------------------------
  // What the rule promises
  // ---------------------------------------------------------------------------

  // Past its first two characters, an escape sequence holds only digits, braces and line ends.
  lemma EscapeTail(p: string, j: nat)
    requires IsEscapeSequence(p) && 1 < j < |p|
    ensures IsHexDigit(p[j]) || p[j] == '{' || p[j] == '}' || IsContinuationEnd(p[j])
  {
    var b := p[1..];
    assert p[j] == b[j - 1];
    if IsEscapeForm(b, Octal) {
      assert IsOctDigit(b[j - 1]);
    } else if IsEscapeForm(b, Unicode4) {
      assert b[j - 1] == b[1..][j - 2];
    } else if IsEscapeForm(b, UnicodeBraced) {
      if 2 <= j - 1 < |b| - 1 {
        assert b[j - 1] == b[2..|b| - 1][j - 3];
      }
    }
  }

  // A quote inside an escape sequence is the character right after its backslash.
  lemma EscapeHoldsNoQuote(p: string, q: char, j: nat)
    requires IsEscapeSequence(p) && IsQuote(q) && j < |p| && p[j] == q
    ensures j == 1
  {
    if j > 1 {
      EscapeTail(p, j);
    }
  }

  // A quote inside a piece is the escape sequence `\"` or `\'`.
  lemma QuoteInPiece(p: string, q: char, i: nat)
    requires IsPiece(p, q) && IsQuote(q) && i < |p| && p[i] == q
    ensures i == 1 && p[0] == '\\' && IsEscapeSequence(p[..2])
  {
    EscapeHoldsNoQuote(p, q, i);
    assert p[..2][1..] == [q];
    assert IsEscapeForm([q], Single);
  }

  // Inside a body, a quote of the string's own kind only ever stands escaped, as `\"` or `\'`.
  lemma {:induction false} QuoteOnlyEscaped(b: string, q: char, i: nat)
    requires IsStringBody(b, q) && IsQuote(q) && i < |b| && b[i] == q
    ensures 0 < i && b[i - 1] == '\\' && IsEscapeSequence(b[i - 1..i + 1])
    decreases |b|
  {
    var k: nat :| k <= |b| && PieceSplit(b, q, k);
    assert PieceSplit(b, q, k);
    if i < k {
      var p := b[..k];
      assert p[i] == q;
      QuoteInPiece(p, q, i);
      assert b[i - 1..i + 1] == p[..2];
    } else {
      assert b[k..][i - k] == q;
      QuoteOnlyEscaped(b[k..], q, i - k);
      assert b[k..][i - k - 1] == b[i - 1];
      assert b[k..][i - k - 1..i - k + 1] == b[i - 1..i + 1];
    }
  }

  // `"ab\"cd"` is one string literal: the fragment `ab`, the escape sequence `\"`, the fragment `cd`.
  lemma EscapedQuoteExample()
    ensures IsString("\"ab\\\"cd\"")
    ensures IsFragment("ab", '"') && IsEscapeSequence("\\\"") && IsFragment("cd", '"')
    ensures forall k | 0 <= k <= 8 && IsString("\"ab\\\"cd\""[..k]) :: k == 8
  {
    var s := "\"ab\\\"cd\"";
    assert IsEscapeForm("\"", Single);
    assert IsEscapeSequence(s[3..5]);
    assert IsFragment(s[5..7], '"');
    assert IsStringBody(s[7..7], '"');
    ConsPiece(s, 5, 7, 7, '"');
    ConsPiece(s, 3, 5, 7, '"');
    ConsPiece(s, 1, 3, 7, '"');
    assert s[1..7] == s[..8][1..7];
    forall k | 0 <= k <= 8 && IsString(s[..k]) ensures k == 8 {
      assert s[..k] == s[0..k];
      MatchStringComplete(s, 0, k);
      MatchStringComplete(s, 0, 8);
    }
  }
}
