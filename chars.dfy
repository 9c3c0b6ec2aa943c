/**
 * Character classes shared by the token rules of grammar.js, as the regex
 * dialect of the grammar compiler reads them (`\d` is the ASCII digits).
 */
module Chars {

  /** `\d`, `[0-9]` */
  predicate IsDecDigit(c: char) { '0' <= c <= '9' }

  /** `[1-9]` */
  predicate IsNonZeroDigit(c: char) { '1' <= c <= '9' }

  /** `[\da-fA-F]`, `[0-9a-fA-F]` */
  predicate IsHexDigit(c: char) { IsDecDigit(c) || 'a' <= c <= 'f' || 'A' <= c <= 'F' }

  /** `[0-7]` */
  predicate IsOctDigit(c: char) { '0' <= c <= '7' }

  /** `[0-1]` */
  predicate IsBinDigit(c: char) { c == '0' || c == '1' }

  /** `[A-Za-z]` */
  predicate IsAsciiLetter(c: char) { 'a' <= c <= 'z' || 'A' <= c <= 'Z' }

  /** `[a-z]` */
  predicate IsLowerLetter(c: char) { 'a' <= c <= 'z' }

  /** U+2028 LINE SEPARATOR */
  const LineSeparator: char := '\U{2028}'

  /** U+2029 PARAGRAPH SEPARATOR */
  const ParagraphSeparator: char := '\U{2029}'

  /** The line terminators that end a line comment: CR, LF, U+2028 and U+2029. */
  predicate IsLineTerminator(c: char) {
    c == '\r' || c == '\n' || c == LineSeparator || c == ParagraphSeparator
  }

  /** Every character of `s` is in class `P`. */
  predicate All(s: string, P: char -> bool) {
    forall i :: 0 <= i < |s| ==> P(s[i])
  }

  /** The end of the longest run of `P`-characters in `s` from `i` on. */
  function SpanEnd(s: string, i: nat, P: char -> bool): (j: nat)
    requires i <= |s|
    ensures i <= j <= |s|
    ensures All(s[i..j], P)
    ensures j < |s| ==> !P(s[j])
    decreases |s| - i
  {
    if i < |s| && P(s[i]) then SpanEnd(s, i + 1, P) else i
  }

  /** No run of `P`-characters from `i` goes past `SpanEnd`. */
  lemma {:induction false} SpanEndLongest(s: string, i: nat, k: nat, P: char -> bool)
    requires i <= k <= |s| && All(s[i..k], P)
    ensures k <= SpanEnd(s, i, P)
    decreases k - i
  {
    if i < k {
      assert P(s[i..k][0]);
      assert s[i + 1..k] == s[i..k][1..];
      SpanEndLongest(s, i + 1, k, P);
    }
  }

  /** A run of `P`-characters stops at the first character outside `P`. */
  lemma SpanEndStops(s: string, i: nat, k: nat, P: char -> bool)
    requires i <= k < |s| && !P(s[k])
    ensures SpanEnd(s, i, P) <= k
  {
  }

  /** A slice of a slice of `s` is a slice of `s`. */
  lemma SliceOfSlice(s: string, a: nat, b: nat, i: nat, j: nat)
    requires a <= b <= |s| && i <= j <= b - a
    ensures s[a..b][i..j] == s[a + i..a + j]
  {
    forall t | 0 <= t < j - i ensures s[a..b][i..j][t] == s[a + i..a + j][t] {
      assert s[a..b][i..j][t] == s[a..b][i + t];
    }
  }
}
