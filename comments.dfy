// The `comment` token of grammar.js: a line comment that starts with two
// slashes and runs to the end of the line, or a block comment that opens with
// slash-star, follows the regex `[^*]*\*+([^/*][^*]*\*+)*` and closes with a slash.
module Comments {
  import opened Chars
  import opened Wrappers

  predicate IsStar(c: char) { c == '*' }

  // `[^*]`
  predicate NotStar(c: char) { c != '*' }

  // `[^\r\n\u2028\u2029]`
  predicate NotLineTerminator(c: char) { !IsLineTerminator(c) }

  // `seq("//", /[^\r\n\u2028\u2029]*/)`
  predicate IsLineComment(c: string) {
    |c| >= 2 && c[0] == '/' && c[1] == '/' && All(c[2..], NotLineTerminator)
  }

  // `[^*]*\*+`, split before its first star at `j`.
  predicate StarsSplit(x: string, j: nat) {
    j < |x| && All(x[..j], NotStar) && All(x[j..], IsStar)
  }

  // `[^*]*\*+`
  predicate IsStarsEnd(x: string) {
    exists j: nat | j < |x| :: StarsSplit(x, j)
  }

  // `([^/*][^*]*\*+)*`
  predicate IsCloseTail(x: string)
    decreases |x|, 1
  {
    x == [] || exists k: nat | k <= |x| :: TailSplit(x, k)
  }

  // One `[^/*][^*]*\*+` as `x[..k]`, then the rest of the repetition.
  predicate TailSplit(x: string, k: nat)
    decreases |x|, 0
  {
    0 < k <= |x| && x[0] != '/' && x[0] != '*' && IsStarsEnd(x[1..k]) && IsCloseTail(x[k..])
  }

  // `[^*]*\*+` as `u[..k]`, then `([^/*][^*]*\*+)*`.
  predicate BodySplit(u: string, k: nat) {
    k <= |u| && IsStarsEnd(u[..k]) && IsCloseTail(u[k..])
  }

  // `/[^*]*\*+([^/*][^*]*\*+)*/`
  predicate IsBlockBody(u: string) {
    exists k: nat | k <= |u| :: BodySplit(u, k)
  }

  // `seq("/*", /[^*]*\*+([^/*][^*]*\*+)*/, "/")`
  predicate IsBlockComment(c: string) {
    |c| >= 4 && c[0] == '/' && c[1] == '*' && c[|c| - 1] == '/' && IsBlockBody(c[2..|c| - 1])
  }

  // `comment`
  predicate IsComment(c: string) { IsLineComment(c) || IsBlockComment(c) }

  // ---------------------------------------------------------------------------
  // A block comment ends at the first `*/`
  // ---------------------------------------------------------------------------

  // The two characters `*/` start at index `i` of `x`.
  predicate ClosesAt(x: string, i: nat) { i + 1 < |x| && x[i] == '*' && x[i + 1] == '/' }

  // Ends with a star and holds no `*/`.
  predicate StarClosed(x: string) {
    |x| >= 1 && x[|x| - 1] == '*' && forall i | 0 <= i < |x| :: !ClosesAt(x, i)
  }

  lemma StarsEndClosed(x: string)
    requires IsStarsEnd(x)
    ensures StarClosed(x)
  {
    var j: nat :| j < |x| && StarsSplit(x, j);
    assert StarsSplit(x, j);
    assert x[|x| - 1] == x[j..][|x| - 1 - j];
    forall i | 0 <= i < |x| ensures !ClosesAt(x, i) {
      if i < j {
        assert x[i] == x[..j][i];
      } else if i + 1 < |x| {
        assert x[i + 1] == x[j..][i + 1 - j];
      }
    }
  }

  // Two star-closed pieces make one when the second does not open with `/`.
  lemma ClosedConcat(a: string, b: string)
    requires StarClosed(a) && (b == [] || (b[0] != '/' && StarClosed(b)))
    ensures StarClosed(a + b)
  {
    var x := a + b;
    forall i | 0 <= i < |x| ensures !ClosesAt(x, i) {
      if i + 1 < |a| {
        assert !ClosesAt(a, i);
      } else if i + 1 == |a| && b != [] {
        assert x[i + 1] == b[0];
      } else if i >= |a| {
        assert !ClosesAt(b, i - |a|);
      }
    }
    if b != [] {
      assert x[|x| - 1] == b[|b| - 1];
    }
  }

  // A character other than a star in front of a star-closed piece keeps it star-closed.
  lemma ConsClosed(c: char, y: string)
    requires c != '*' && StarClosed(y)
    ensures StarClosed([c] + y)
  {
    var x := [c] + y;
    forall i | 0 <= i < |x| ensures !ClosesAt(x, i) {
      if i > 0 {
        assert !ClosesAt(y, i - 1);
      }
    }
  }

  lemma {:induction false} CloseTailClosed(x: string)
    requires IsCloseTail(x) && x != []
    ensures x[0] != '/' && x[0] != '*' && StarClosed(x)
    decreases |x|
  {
    var k: nat :| k <= |x| && TailSplit(x, k);
    assert TailSplit(x, k);
    StarsEndClosed(x[1..k]);
    ConsClosed(x[0], x[1..k]);
    assert [x[0]] + x[1..k] == x[..k];
    if x[k..] != [] {
      CloseTailClosed(x[k..]);
    }
    ClosedConcat(x[..k], x[k..]);
    assert x[..k] + x[k..] == x;
  }

  lemma BodyClosed(u: string)
    requires IsBlockBody(u)
    ensures StarClosed(u)
  {
    var k: nat :| k <= |u| && BodySplit(u, k);
    assert BodySplit(u, k);
    StarsEndClosed(u[..k]);
    if u[k..] != [] {
      CloseTailClosed(u[k..]);
    }
    ClosedConcat(u[..k], u[k..]);
    assert u[..k] + u[k..] == u;
  }

  // From `a`, the first star of a star-closed `x` and the run of stars after it.
  lemma FirstSegment(x: string, a: nat)
    requires a < |x| && StarClosed(x)
    ensures var j := SpanEnd(x, a, NotStar); var e := SpanEnd(x, j, IsStar);
      a <= j < e <= |x| && StarsSplit(x[a..e], j - a) &&
      (e < |x| ==> x[e] != '/' && x[e] != '*' && StarClosed(x[e..]))
  {
    var j := SpanEnd(x, a, NotStar);
    var e := SpanEnd(x, j, IsStar);
    var y := x[a..e];
    assert y[..j - a] == x[a..j];
    assert y[j - a..] == x[j..e];
    if e < |x| {
      assert !ClosesAt(x, e - 1);
      assert x[e - 1] == x[j..e][e - 1 - j];
      var z := x[e..];
      forall i | 0 <= i < |z| ensures !ClosesAt(z, i) {
        assert !ClosesAt(x, e + i);
      }
    }
  }

  lemma {:induction false} ClosedCloseTail(x: string)
    requires x != [] && x[0] != '/' && x[0] != '*' && StarClosed(x)
    ensures IsCloseTail(x)
    decreases |x|
  {
    FirstSegment(x, 1);
    var j := SpanEnd(x, 1, NotStar);
    var e := SpanEnd(x, j, IsStar);
    assert IsStarsEnd(x[1..e]);
    if e < |x| {
      ClosedCloseTail(x[e..]);
    } else {
      assert x[e..] == [];
    }
    assert TailSplit(x, e);
  }

  lemma ClosedBody(u: string)
    requires StarClosed(u)
    ensures IsBlockBody(u)
  {
    FirstSegment(u, 0);
    var j := SpanEnd(u, 0, NotStar);
    var e := SpanEnd(u, j, IsStar);
    assert u[..e] == u[0..e];
    assert IsStarsEnd(u[..e]);
    if e < |u| {
      ClosedCloseTail(u[e..]);
    } else {
      assert u[e..] == [];
    }
    assert BodySplit(u, e);
  }

  // The block-comment regex is exactly the text without `*/` that ends with a star.
  lemma BlockBodyIff(u: string)
    ensures IsBlockBody(u) <==> StarClosed(u)
  {
    if IsBlockBody(u) { BodyClosed(u); }
    if StarClosed(u) { ClosedBody(u); }
  }

  // A block comment is `/*` and `*/` with no `*/` between them: it ends at the first `*/`.
  lemma BlockCommentIff(c: string)
    ensures IsBlockComment(c) <==>
      (|c| >= 4 && c[0] == '/' && c[1] == '*' && ClosesAt(c, |c| - 2) &&
       forall i | 2 <= i < |c| - 2 :: !ClosesAt(c, i))
  {
    if |c| >= 4 {
      var u := c[2..|c| - 1];
      BlockBodyIff(u);
      assert u[|u| - 1] == c[|c| - 2];
      forall i | 2 <= i < |c| - 2 ensures ClosesAt(c, i) == ClosesAt(u, i - 2) {
        assert u[i - 2] == c[i] && u[i - 1] == c[i + 1];
      }
      if forall i | 2 <= i < |c| - 2 :: !ClosesAt(c, i) {
        forall i | 0 <= i < |u| ensures !ClosesAt(u, i) {
          if i + 1 < |u| { assert !ClosesAt(c, i + 2); }
        }
      }
    }
  }

  // ---------------------------------------------------------------------------
  // The scanner
  // ---------------------------------------------------------------------------

  // The index just past the first `*/` at or after `i`, or `None`.
  function FindClose(s: string, i: nat): (e: Option<nat>)
    requires i <= |s|
    ensures e.Some? ==> i + 2 <= e.value <= |s| && ClosesAt(s, e.value - 2)
    decreases |s| - i
  {
    if i + 1 >= |s| then None
    else if s[i] == '*' && s[i + 1] == '/' then Some(i + 2)
    else FindClose(s, i + 1)
  }

  // `FindClose` finds the first `*/` from `i` on.
  lemma {:induction false} FindCloseFirst(s: string, i: nat, j: nat)
    requires i <= j <= |s|
    ensures (FindClose(s, i).Some? && FindClose(s, i).value <= j + 2) <==> (exists t | i <= t <= j :: ClosesAt(s, t))
    decreases |s| - i
  {
    if i + 1 < |s| && !ClosesAt(s, i) && i < j {
      FindCloseFirst(s, i + 1, j);
      if ClosesAt(s, i + 1) {
        assert FindClose(s, i + 1).Some?;
      }
    } else if ClosesAt(s, i) {
      assert ClosesAt(s, i);
    }
  }

  // The length of the comment the lexer reads at `s[pos]`, or `None`.
  function MatchComment(s: string, pos: nat): (n: Option<nat>)
    requires pos <= |s|
    ensures n.Some? ==> 2 <= n.value && pos + n.value <= |s|
  {
    if pos + 1 < |s| && s[pos] == '/' && s[pos + 1] == '/' then
      Some(SpanEnd(s, pos + 2, NotLineTerminator) - pos)
    else if pos + 1 < |s| && s[pos] == '/' && s[pos + 1] == '*' then
      match FindClose(s, pos + 2)
      case None => None
      case Some(e) => Some(e - pos)
    else None
  }

  lemma MatchCommentSound(s: string, pos: nat)
    requires pos <= |s| && MatchComment(s, pos).Some?
    ensures IsComment(s[pos..pos + MatchComment(s, pos).value])
  {
    var c := s[pos..pos + MatchComment(s, pos).value];
    if s[pos + 1] == '/' {
      assert c[2..] == s[pos + 2..SpanEnd(s, pos + 2, NotLineTerminator)];
      assert IsLineComment(c);
    } else {
      var e := FindClose(s, pos + 2).value;
      forall i | 2 <= i < |c| - 2 ensures !ClosesAt(c, i) {
        FindCloseFirst(s, pos + 2, pos + i);
        assert !ClosesAt(s, pos + i);
        assert c[i] == s[pos + i] && c[i + 1] == s[pos + i + 1];
      }
      assert ClosesAt(c, |c| - 2) by {
        assert c[|c| - 2] == s[e - 2] && c[|c| - 1] == s[e - 1];
      }
      BlockCommentIff(c);
    }
  }

  // A line comment at `pos` is never longer than the one the lexer reads.
  lemma LineCommentLongest(s: string, pos: nat, k: nat)
    requires pos <= k <= |s| && IsLineComment(s[pos..k])
    ensures MatchComment(s, pos).Some? && k <= pos + MatchComment(s, pos).value
  {
    var c := s[pos..k];
    assert c[0] == s[pos] && c[1] == s[pos + 1];
    assert c[2..] == s[pos + 2..k];
    SpanEndLongest(s, pos + 2, k, NotLineTerminator);
  }

  // A block comment at `pos` is exactly the one the lexer reads, up to the first `*/`.
  lemma BlockCommentExact(s: string, pos: nat, k: nat)
    requires pos <= k <= |s| && IsBlockComment(s[pos..k])
    ensures MatchComment(s, pos) == Some(k - pos)
  {
    var c := s[pos..k];
    BlockCommentIff(c);
    assert c[0] == s[pos] && c[1] == s[pos + 1];
    assert ClosesAt(s, k - 2) by {
      assert c[|c| - 2] == s[k - 2] && c[|c| - 1] == s[k - 1];
    }
    FindCloseFirst(s, pos + 2, k - 2);
    var e := FindClose(s, pos + 2).value;
    assert c[e - 2 - pos] == s[e - 2] && c[e - 1 - pos] == s[e - 1];
    assert ClosesAt(c, e - 2 - pos);
  }

  // Whatever comment starts at `pos`, the lexer reads one at least as long.
  lemma CommentLongest(s: string, pos: nat, k: nat)
    requires pos <= k <= |s| && IsComment(s[pos..k])
    ensures MatchComment(s, pos).Some? && k <= pos + MatchComment(s, pos).value
  {
    if IsLineComment(s[pos..k]) {
      LineCommentLongest(s, pos, k);
    } else {
      BlockCommentExact(s, pos, k);
    }
  }

  // A line comment never holds a line terminator.
  lemma LineCommentOneLine(c: string, i: nat)
    requires IsLineComment(c) && i < |c|
    ensures !IsLineTerminator(c[i])
  {
    if i >= 2 {
      assert c[i] == c[2..][i - 2];
    }
  }
}
