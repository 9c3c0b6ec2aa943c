/**
 * The `regex` rule of grammar.js: a slash, a `regex_pattern`, a slash right
 * after it and optional `regex_flags`. The pattern is a non-empty sequence
 * of items: a bracketed character class, an escaped character, or a plain
 * character. `.` in the grammar's regexes is any character but LF.
 */
module Regex {
  import opened Chars
  import opened Wrappers

  // `[^/\\\[\n]`: a plain pattern character.
  predicate IsRegexChar(c: char) { c != '/' && c != '\\' && c != '[' && c != '\n' }

  // `[^\]\n\\]`: a plain character inside a class.
  predicate IsClassChar(c: char) { c != ']' && c != '\n' && c != '\\' }

  // `seq("\\", /./)`: an escaped character.
  predicate IsEscapedPair(x: string) { |x| == 2 && x[0] == '\\' && x[1] != '\n' }

  // `repeat(choice(seq("\\", /./), /[^\]\n\\]/))`
  predicate IsClassBody(y: string)
    decreases |y|
  {
    || y == []
    || (IsClassChar(y[0]) && IsClassBody(y[1..]))
    || (|y| >= 2 && IsEscapedPair(y[..2]) && IsClassBody(y[2..]))
  }

  // Inside a class body a `]` only ever stands escaped, as the second character of `\\]`.
  lemma {:induction false} ClassBracketEscaped(y: string, i: nat)
    requires IsClassBody(y) && i < |y| && y[i] == ']'
    ensures 0 < i && y[i - 1] == '\\' && IsEscapedPair(y[i - 1..i + 1])
    decreases |y|
  {
    if IsClassChar(y[0]) && IsClassBody(y[1..]) {
      ClassBracketEscaped(y[1..], i - 1);
      assert y[1..][i - 2..i] == y[i - 1..i + 1];
    } else if i >= 2 {
      ClassBracketEscaped(y[2..], i - 2);
      assert y[2..][i - 3..i - 1] == y[i - 1..i + 1];
    } else {
      assert y[..2] == y[i - 1..i + 1];
    }
  }

  // `seq("[", repeat(...), "]")`: a square-bracket-delimited character class.
  predicate IsClass(x: string) {
    |x| >= 2 && x[0] == '[' && x[|x| - 1] == ']' && IsClassBody(x[1..|x| - 1])
  }

  // One alternative of the `choice` inside `repeat1`.
  predicate IsPatternItem(x: string) {
    IsClass(x) || IsEscapedPair(x) || (|x| == 1 && IsRegexChar(x[0]))
  }

  // `repeat(choice(...))`
  predicate IsPatternItems(x: string)
    decreases |x|, 1
  {
    x == [] || exists k: nat | k <= |x| :: ItemSplit(x, k)
  }

  // A first item `x[..k]`, then the rest of the items.
  predicate ItemSplit(x: string, k: nat)
    decreases |x|, 0
  {
    0 < k <= |x| && IsPatternItem(x[..k]) && IsPatternItems(x[k..])
  }

  // `regex_pattern`: `repeat1(choice(...))`
  predicate IsPattern(x: string) { |x| > 0 && IsPatternItems(x) }

  // `regex_flags`: `/[a-z]+/`
  predicate IsFlags(x: string) { |x| > 0 && All(x, IsLowerLetter) }

  // `regex` with its closing slash at `p`.
  predicate RegexSplit(s: string, p: nat) {
    1 < p < |s| && s[0] == '/' && IsPattern(s[1..p]) && s[p] == '/' && (p + 1 == |s| || IsFlags(s[p + 1..]))
  }

  // `regex`: `seq("/", pattern, "/", optional(flags))`, read as one lexeme.
  predicate IsRegex(s: string) {
    exists p: nat | p < |s| :: RegexSplit(s, p)
  }

  // ---------------------------------------------------------------------------
  // An independent reading: a four-state automaton
  // ---------------------------------------------------------------------------

  // Where a reader of the pattern stands: outside or inside a class, right after a backslash or not.
  datatype Mode = Plain | Escaped | InClass | EscapedInClass

  function Step(m: Mode, c: char): Mode {
    match m
    case Plain => if c == '\\' then Escaped else if c == '[' then InClass else Plain
    case Escaped => Plain
    case InClass => if c == '\\' then EscapedInClass else if c == ']' then Plain else InClass
    case EscapedInClass => InClass
  }

  // The automaton accepts `x` from mode `m`: no LF anywhere, a slash only inside a class or
  // right after a backslash, and at the end every class closed and no backslash pending.
  predicate Accepts(x: string, m: Mode)
    decreases |x|
  {
    if x == [] then m == Plain
    else x[0] != '\n' && !(m == Plain && x[0] == '/') && Accepts(x[1..], Step(m, x[0]))
  }

  // ---------------------------------------------------------------------------
  // The scanner
  // ---------------------------------------------------------------------------

  // The index just past the `]` that closes a class whose body starts at `i`, or `None`.
  function ClassEnd(s: string, i: nat): (e: Option<nat>)
    requires i <= |s|
    ensures e.Some? ==> i < e.value <= |s| && s[e.value - 1] == ']'
    decreases |s| - i
  {
    if i == |s| || s[i] == '\n' then None
    else if s[i] == ']' then Some(i + 1)
    else if s[i] == '\\' then (if i + 1 < |s| && s[i + 1] != '\n' then ClassEnd(s, i + 2) else None)
    else ClassEnd(s, i + 1)
  }

  // The end of the longest run of pattern items from `i` on: the `regex_pattern` token the lexer reads.
  function PatternEnd(s: string, i: nat): (e: nat)
    requires i <= |s|
    ensures i <= e <= |s|
    decreases |s| - i
  {
    if i == |s| then i
    else if IsRegexChar(s[i]) then PatternEnd(s, i + 1)
    else if s[i] == '\\' && i + 1 < |s| && s[i + 1] != '\n' then PatternEnd(s, i + 2)
    else if s[i] == '[' then
      match ClassEnd(s, i + 1)
      case None => i
      case Some(e) => PatternEnd(s, e)
    else i
  }

  lemma {:induction false} ClassEndSound(s: string, i: nat)
    requires i <= |s| && ClassEnd(s, i).Some?
    ensures IsClassBody(s[i..ClassEnd(s, i).value - 1])
    decreases |s| - i
  {
    var e := ClassEnd(s, i).value;
    var y := s[i..e - 1];
    if s[i] == ']' {
      assert y == [];
    } else if s[i] == '\\' {
      ClassEndSound(s, i + 2);
      assert y[..2] == s[i..i + 2];
      assert y[2..] == s[i + 2..e - 1];
    } else {
      ClassEndSound(s, i + 1);
      assert y[1..] == s[i + 1..e - 1];
    }
  }

  lemma {:induction false} ClassEndComplete(s: string, i: nat, j: nat)
    requires i <= j < |s| && s[j] == ']' && IsClassBody(s[i..j])
    ensures ClassEnd(s, i) == Some(j + 1)
    decreases j - i
  {
    var y := s[i..j];
    if i < j {
      assert y[0] == s[i];
      if IsClassChar(s[i]) {
        assert y[1..] == s[i + 1..j];
        ClassEndComplete(s, i + 1, j);
      } else {
        assert y[..2] == s[i..i + 2];
        assert y[2..] == s[i + 2..j];
        ClassEndComplete(s, i + 2, j);
      }
    }
  }

  // The first item of the items `s[i..j]`, read back in `s`'s own indices.
  lemma ItemAt(s: string, i: nat, j: nat, k: nat)
    requires i <= j <= |s| && ItemSplit(s[i..j], k)
    ensures i + k <= j && IsPatternItem(s[i..i + k]) && IsPatternItems(s[i + k..j])
  {
    SliceOfSlice(s, i, j, 0, k);
    SliceOfSlice(s, i, j, k, j - i);
    assert s[i..j][..k] == s[i..i + k];
    assert s[i..j][k..] == s[i + k..j];
  }

  // An item followed by items is items.
  lemma ConsItem(s: string, i: nat, m: nat, j: nat)
    requires i < m <= j <= |s| && IsPatternItem(s[i..m]) && IsPatternItems(s[m..j])
    ensures IsPatternItems(s[i..j])
  {
    SliceOfSlice(s, i, j, 0, m - i);
    SliceOfSlice(s, i, j, m - i, j - i);
    assert ItemSplit(s[i..j], m - i);
  }

  // What the scanner reads at `[` is a class.
  lemma ClassItem(s: string, i: nat)
    requires i < |s| && s[i] == '[' && ClassEnd(s, i + 1).Some?
    ensures IsClass(s[i..ClassEnd(s, i + 1).value])
  {
    var c := ClassEnd(s, i + 1).value;
    ClassEndSound(s, i + 1);
    SliceOfSlice(s, i, c, 1, c - i - 1);
    assert s[i..c][0] == s[i] && s[i..c][c - i - 1] == s[c - 1];
  }

  // What the scanner reads is a run of pattern items.
  lemma {:induction false} PatternEndSound(s: string, i: nat)
    requires i <= |s|
    ensures IsPatternItems(s[i..PatternEnd(s, i)])
    decreases |s| - i
  {
    var e := PatternEnd(s, i);
    if e == i {
      assert s[i..e] == [];
    } else if IsRegexChar(s[i]) {
      PatternEndSound(s, i + 1);
      assert IsPatternItem(s[i..i + 1]);
      ConsItem(s, i, i + 1, e);
    } else if s[i] == '\\' {
      PatternEndSound(s, i + 2);
      assert IsEscapedPair(s[i..i + 2]);
      ConsItem(s, i, i + 2, e);
    } else {
      var c := ClassEnd(s, i + 1).value;
      ClassItem(s, i);
      PatternEndSound(s, c);
      ConsItem(s, i, c, e);
    }
  }

  // Reading one item `s[i..i + k]` first, the scanner goes on from its end.
  lemma ItemStep(s: string, i: nat, k: nat)
    requires i + k <= |s| && IsPatternItem(s[i..i + k])
    ensures PatternEnd(s, i) == PatternEnd(s, i + k)
  {
    var x := s[i..i + k];
    assert x[0] == s[i];
    if IsClass(x) {
      SliceOfSlice(s, i, i + k, 1, k - 1);
      assert s[i + k - 1] == x[|x| - 1];
      ClassEndComplete(s, i + 1, i + k - 1);
    } else if IsEscapedPair(x) {
      assert x[1] == s[i + 1];
    }
  }

  // Reading the items `s[i..j]` first, the scanner goes on from `j` as it would have anyway.
  lemma {:induction false} PatternEndSkips(s: string, i: nat, j: nat)
    requires i <= j <= |s| && IsPatternItems(s[i..j])
    ensures PatternEnd(s, i) == PatternEnd(s, j)
    decreases j - i
  {
    if i < j {
      var k: nat :| k <= j - i && ItemSplit(s[i..j], k);
      ItemAt(s, i, j, k);
      ItemStep(s, i, k);
      PatternEndSkips(s, i + k, j);
    }
  }

  // No run of pattern items from `i` on is longer than the one the scanner reads.
  lemma PatternLongest(s: string, i: nat, j: nat)
    requires i <= j <= |s| && IsPatternItems(s[i..j])
    ensures j <= PatternEnd(s, i)
  {
    PatternEndSkips(s, i, j);
  }

  // ---------------------------------------------------------------------------
  // The automaton agrees with the grammar
  // ---------------------------------------------------------------------------

  lemma AcceptsStep(x: string, i: nat, m: Mode)
    requires i < |x|
    ensures Accepts(x[i..], m) == (x[i] != '\n' && !(m == Plain && x[i] == '/') && Accepts(x[i + 1..], Step(m, x[i])))
  {
    assert x[i..][0] == x[i];
    assert x[i..][1..] == x[i + 1..];
  }

  lemma {:induction false} ClassAccepts(x: string, j: nat)
    requires j <= |x|
    ensures Accepts(x[j..], InClass) <==> (ClassEnd(x, j).Some? && Accepts(x[ClassEnd(x, j).value..], Plain))
    decreases |x| - j
  {
    if j == |x| {
      assert x[j..] == [];
    } else {
      AcceptsStep(x, j, InClass);
      if x[j] == '\\' && j + 1 < |x| {
        AcceptsStep(x, j + 1, EscapedInClass);
        ClassAccepts(x, j + 2);
      } else if x[j] == '\\' {
        assert x[j + 1..] == [];
      } else if x[j] != ']' {
        ClassAccepts(x, j + 1);
      }
    }
  }

  lemma {:induction false} ScanAccepts(x: string, i: nat)
    requires i <= |x|
    ensures Accepts(x[i..], Plain) <==> PatternEnd(x, i) == |x|
    decreases |x| - i
  {
    if i == |x| {
      assert x[i..] == [];
    } else {
      AcceptsStep(x, i, Plain);
      if IsRegexChar(x[i]) {
        ScanAccepts(x, i + 1);
      } else if x[i] == '\\' && i + 1 < |x| {
        AcceptsStep(x, i + 1, Escaped);
        ScanAccepts(x, i + 2);
      } else if x[i] == '\\' {
        assert x[i + 1..] == [];
      } else if x[i] == '[' {
        ClassAccepts(x, i + 1);
        if ClassEnd(x, i + 1).Some? {
          ScanAccepts(x, ClassEnd(x, i + 1).value);
        }
      }
    }
  }

  // A pattern is exactly a non-empty text the automaton accepts: it holds no LF, a slash only
  // inside a class or escaped, a `]` ends a class unless escaped, and every class is closed.
  lemma PatternIff(x: string)
    ensures IsPattern(x) <==> |x| > 0 && Accepts(x, Plain)
  {
    ScanAccepts(x, 0);
    assert x[0..] == x;
    if IsPattern(x) {
      assert x[0..|x|] == x;
      PatternEndSkips(x, 0, |x|);
    }
    if PatternEnd(x, 0) == |x| {
      PatternEndSound(x, 0);
      assert x[0..|x|] == x;
    }
  }

  // A pattern never holds a raw LF.
  lemma {:induction false} AcceptsNoNewline(x: string, m: Mode, i: nat)
    requires Accepts(x, m) && i < |x|
    ensures x[i] != '\n'
    decreases |x|
  {
    if i > 0 {
      AcceptsNoNewline(x[1..], Step(m, x[0]), i - 1);
    }
  }

  lemma PatternNoNewline(x: string, i: nat)
    requires IsPattern(x) && i < |x|
    ensures x[i] != '\n'
  {
    PatternIff(x);
    AcceptsNoNewline(x, Plain, i);
  }

  // The mode the automaton reaches after reading `x` from `m`.
  function ModeAfter(x: string, m: Mode): Mode
    decreases |x|
  {
    if x == [] then m else ModeAfter(x[1..], Step(m, x[0]))
  }

  lemma {:induction false} AcceptsSlash(x: string, m: Mode, i: nat)
    requires Accepts(x, m) && i < |x| && x[i] == '/'
    ensures ModeAfter(x[..i], m) != Plain
    decreases i
  {
    if i == 0 {
      assert x[..i] == [];
    } else {
      assert x[..i][0] == x[0];
      assert x[..i][1..] == x[1..][..i - 1];
      AcceptsSlash(x[1..], Step(m, x[0]), i - 1);
    }
  }

  // A slash inside a pattern never stands where a plain character could: the text before it
  // leaves either a class open or a backslash pending, so the slash cannot end the pattern.
  lemma PatternSlashGuarded(x: string, i: nat)
    requires IsPattern(x) && i < |x| && x[i] == '/'
    ensures ModeAfter(x[..i], Plain) != Plain
  {
    PatternIff(x);
    AcceptsSlash(x, Plain, i);
  }

  // ---------------------------------------------------------------------------
  // The whole regex
  // ---------------------------------------------------------------------------

  // The length of the regex the parser reads at the slash `s[pos]`, or `None`: the pattern as far
  // as it goes, the slash right after it, and every lower-case letter after that as flags.
  function MatchRegex(s: string, pos: nat): (n: Option<nat>)
    requires pos <= |s|
    ensures n.Some? ==> 3 <= n.value && pos + n.value <= |s|
  {
    if pos < |s| && s[pos] == '/' then
      var e := PatternEnd(s, pos + 1);
      if pos + 1 < e < |s| && s[e] == '/' then Some(SpanEnd(s, e + 1, IsLowerLetter) - pos) else None
    else None
  }

  lemma MatchRegexSound(s: string, pos: nat)
    requires pos <= |s| && MatchRegex(s, pos).Some?
    ensures IsRegex(s[pos..pos + MatchRegex(s, pos).value])
  {
    var e := PatternEnd(s, pos + 1);
    var f := SpanEnd(s, e + 1, IsLowerLetter);
    var r := s[pos..f];
    PatternEndSound(s, pos + 1);
    SliceOfSlice(s, pos, f, 1, e - pos);
    SliceOfSlice(s, pos, f, e + 1 - pos, f - pos);
    assert r[e + 1 - pos..] == r[e + 1 - pos..f - pos];
    assert r[0] == s[pos] && r[e - pos] == s[e];
    assert RegexSplit(r, e - pos);
  }

  // A regex at `pos` has the pattern the scanner reads, and is never longer than what it reads.
  // The parts of the regex `s[pos..k]` whose closing slash is at `p`, read back in `s`'s own indices.
  lemma RegexPartsAt(s: string, pos: nat, k: nat, p: nat)
    requires pos <= k <= |s| && RegexSplit(s[pos..k], p)
    ensures pos + p < k && s[pos] == '/' && IsPattern(s[pos + 1..pos + p]) && s[pos + p] == '/'
    ensures All(s[pos + p + 1..k], IsLowerLetter)
  {
    var r := s[pos..k];
    SliceOfSlice(s, pos, k, 1, p);
    SliceOfSlice(s, pos, k, p + 1, k - pos);
    assert r[p + 1..] == r[p + 1..k - pos];
    assert s[pos + p] == r[p] && s[pos] == r[0];
  }

  lemma RegexLongest(s: string, pos: nat, k: nat)
    requires pos <= k <= |s| && IsRegex(s[pos..k])
    ensures MatchRegex(s, pos).Some? && k <= pos + MatchRegex(s, pos).value
  {
    var p: nat :| p < k - pos && RegexSplit(s[pos..k], p);
    RegexPartsAt(s, pos, k, p);
    PatternEndSkips(s, pos + 1, pos + p);
    assert PatternEnd(s, pos + p) == pos + p;
    SpanEndLongest(s, pos + p + 1, k, IsLowerLetter);
  }
}
