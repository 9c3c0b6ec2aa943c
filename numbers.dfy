/**
 * The `number` token of grammar.js: hexadecimal, binary, octal and decimal
 * literals with `_` digit separators, a signed exponent and the bigint
 * suffix `n`. Each `const` of the rule is a predicate of the same name.
 */
module Numbers {
  import opened Chars
  import opened Wrappers

  // The radix of a digit run: which class `D` the run `D(_?D)*` is over.
  datatype Radix = Hex | Dec | Oct | Bin

  predicate IsDigitOf(r: Radix, c: char) {
    match r
    case Hex => IsHexDigit(c)
    case Dec => IsDecDigit(c)
    case Oct => IsOctDigit(c)
    case Bin => IsBinDigit(c)
  }

  // `(_?D)*`
  predicate IsRunTail(s: string, r: Radix)
    decreases |s|
  {
    || s == []
    || (IsDigitOf(r, s[0]) && IsRunTail(s[1..], r))
    || (|s| >= 2 && s[0] == '_' && IsDigitOf(r, s[1]) && IsRunTail(s[2..], r))
  }

  // `D(_?D)*`: `/[\da-fA-F](_?[\da-fA-F])*/`, `/\d(_?\d)*/`, `/[0-7](_?[0-7])*/`, `/[0-1](_?[0-1])*/`
  predicate IsRun(s: string, r: Radix) {
    |s| > 0 && IsDigitOf(r, s[0]) && IsRunTail(s[1..], r)
  }

  // `seq(choice("0x", "0X"), /[\da-fA-F](_?[\da-fA-F])*/)`
  predicate IsHexLiteral(s: string) {
    |s| >= 2 && s[0] == '0' && (s[1] == 'x' || s[1] == 'X') && IsRun(s[2..], Hex)
  }

  // `seq(choice("0b", "0B"), /[0-1](_?[0-1])*/)`
  predicate IsBinaryLiteral(s: string) {
    |s| >= 2 && s[0] == '0' && (s[1] == 'b' || s[1] == 'B') && IsRun(s[2..], Bin)
  }

  // `seq(choice("0o", "0O"), /[0-7](_?[0-7])*/)`
  predicate IsOctalLiteral(s: string) {
    |s| >= 2 && s[0] == '0' && (s[1] == 'o' || s[1] == 'O') && IsRun(s[2..], Oct)
  }

  // `decimalDigits`: `/\d(_?\d)*/`
  predicate IsDecimalDigits(s: string) { IsRun(s, Dec) }

  // `signedInteger`: `seq(optional("-"), decimalDigits)`
  predicate IsSignedInteger(s: string) {
    IsDecimalDigits(s) || (|s| >= 1 && s[0] == '-' && IsDecimalDigits(s[1..]))
  }

  // `exponentPart`: `seq(choice("e", "E"), signedInteger)`
  predicate IsExponentPart(s: string) {
    |s| >= 1 && (s[0] == 'e' || s[0] == 'E') && IsSignedInteger(s[1..])
  }

  // `bigintLiteral`: `seq(choice(hexLiteral, binaryLiteral, octalLiteral, decimalDigits), "n")`
  predicate IsBigintLiteral(s: string) {
    && |s| >= 1 && s[|s| - 1] == 'n'
    && IsIntegerForm(s[..|s| - 1])
  }

  // `choice(hexLiteral, binaryLiteral, octalLiteral, decimalDigits)`
  predicate IsIntegerForm(s: string) {
    IsHexLiteral(s) || IsBinaryLiteral(s) || IsOctalLiteral(s) || IsDecimalDigits(s)
  }

  // `seq(/[1-9]/, optional(seq(optional("_"), decimalDigits)))`
  predicate IsNonZeroInteger(s: string) {
    && |s| >= 1 && IsNonZeroDigit(s[0])
    && (|s| == 1 || IsDecimalDigits(s[1..]) || (s[1] == '_' && IsDecimalDigits(s[2..])))
  }

  // `decimalIntegerLiteral`: `choice("0", seq(optional("0"), /[1-9]/, optional(seq(optional("_"), decimalDigits))))`
  predicate IsDecimalIntegerLiteral(s: string) {
    s == "0" || IsNonZeroInteger(s) || (|s| >= 1 && s[0] == '0' && IsNonZeroInteger(s[1..]))
  }

  // `optional(decimalDigits)`
  predicate IsOptDigits(s: string) { s == [] || IsDecimalDigits(s) }

  // `optional(exponentPart)`
  predicate IsOptExponent(s: string) { s == [] || IsExponentPart(s) }

  // `optional(decimalDigits)` up to `j`, then `optional(exponentPart)`
  predicate FractionSplit(s: string, j: nat) {
    j <= |s| && IsOptDigits(s[..j]) && IsOptExponent(s[j..])
  }

  // What follows the `.` of `seq(decimalIntegerLiteral, ".", optional(decimalDigits), optional(exponentPart))`
  predicate IsFraction(s: string) {
    exists j: nat | j <= |s| :: FractionSplit(s, j)
  }

  // `decimalDigits` up to `j`, then `optional(exponentPart)`
  predicate DigitsExponentSplit(s: string, j: nat) {
    j <= |s| && IsDecimalDigits(s[..j]) && IsOptExponent(s[j..])
  }

  // What follows the `.` of `seq(".", decimalDigits, optional(exponentPart))`
  predicate IsDigitsThenExponent(s: string) {
    exists j: nat | j <= |s| :: DigitsExponentSplit(s, j)
  }

  // `decimalIntegerLiteral` up to `i`, then `.` and a fraction
  predicate IntegerDotAt(s: string, i: nat) {
    i < |s| && IsDecimalIntegerLiteral(s[..i]) && s[i] == '.' && IsFraction(s[i + 1..])
  }

  // `decimalIntegerLiteral` up to `i`, then `exponentPart`
  predicate IntegerExponentAt(s: string, i: nat) {
    i <= |s| && IsDecimalIntegerLiteral(s[..i]) && IsExponentPart(s[i..])
  }

  // `decimalLiteral`, its four alternatives in order
  predicate IsDecimalLiteral(s: string) {
    || (exists i: nat | i < |s| :: IntegerDotAt(s, i))
    || (|s| >= 1 && s[0] == '.' && IsDigitsThenExponent(s[1..]))
    || (exists i: nat | i <= |s| :: IntegerExponentAt(s, i))
    || IsDecimalDigits(s)
  }

  // The `number` token: `choice(hexLiteral, decimalLiteral, binaryLiteral, octalLiteral, bigintLiteral)`
  predicate IsNumber(s: string) {
    IsHexLiteral(s) || IsDecimalLiteral(s) || IsBinaryLiteral(s) || IsOctalLiteral(s) || IsBigintLiteral(s)
  }

  // ---------------------------------------------------------------------------
  // What the rule promises about separators, the exponent and the suffix
  // ---------------------------------------------------------------------------

  // Every `_` of `s` sits strictly inside `s`, between two digits of radix `r`.
  predicate SeparatorsBetweenDigits(s: string, r: Radix) {
    forall i | 0 <= i < |s| && s[i] == '_' :: 0 < i < |s| - 1 && IsDigitOf(r, s[i - 1]) && IsDigitOf(r, s[i + 1])
  }

  // A digit run, characterized without the regex: non-empty, only digits and `_`, and no `_` leading, trailing or doubled.
  predicate IsSeparatedDigits(s: string, r: Radix) {
    && |s| > 0
    && (forall i | 0 <= i < |s| :: IsDigitOf(r, s[i]) || s[i] == '_')
    && SeparatorsBetweenDigits(s, r)
  }

  lemma {:induction false} RunTailSeparated(s: string, r: Radix)
    requires IsRunTail(s, r)
    ensures forall i | 0 <= i < |s| :: IsDigitOf(r, s[i]) || s[i] == '_'
    ensures forall i | 0 <= i < |s| && s[i] == '_' :: i < |s| - 1 && IsDigitOf(r, s[i + 1])
    ensures forall i | 0 < i < |s| && s[i] == '_' :: IsDigitOf(r, s[i - 1])
    decreases |s|
  {
    if s == [] {
    } else if IsDigitOf(r, s[0]) && IsRunTail(s[1..], r) {
      RunTailSeparated(s[1..], r);
      assert forall i | 0 < i < |s| :: s[i] == s[1..][i - 1];
    } else {
      RunTailSeparated(s[2..], r);
      assert forall i | 1 < i < |s| :: s[i] == s[2..][i - 2];
    }
  }

  // `D(_?D)*` is exactly a well-separated digit run: no `_` leading, trailing or doubled.
  lemma {:induction false} RunIsSeparatedDigits(s: string, r: Radix)
    ensures IsRun(s, r) <==> IsSeparatedDigits(s, r)
    decreases |s|
  {
    if IsRun(s, r) {
      RunTailSeparated(s[1..], r);
      assert forall i | 0 < i < |s| :: s[i] == s[1..][i - 1];
    }
    if IsSeparatedDigits(s, r) && |s| > 1 {
      if IsDigitOf(r, s[1]) {
        assert IsSeparatedDigits(s[1..], r) by {
          assert forall i | 0 <= i < |s| - 1 :: s[1..][i] == s[i + 1];
        }
        RunIsSeparatedDigits(s[1..], r);
      } else {
        assert s[1] == '_';
        assert IsSeparatedDigits(s[2..], r) by {
          assert forall i | 0 <= i < |s| - 2 :: s[2..][i] == s[i + 2];
        }
        RunIsSeparatedDigits(s[2..], r);
        assert s[1..][2..] == s[3..];
      }
    }
    if IsSeparatedDigits(s, r) && |s| == 1 {
      assert s[0] != '_';
    }
  }

  // ---------------------------------------------------------------------------
  // The scanner: the length of the longest `number` at a position
  // ---------------------------------------------------------------------------

  // The end of the longest `(_?D)*` that starts at `i`.
  function RunTailEnd(s: string, i: nat, r: Radix): (j: nat)
    requires i <= |s|
    ensures i <= j <= |s|
    decreases |s| - i
  {
    if i < |s| && IsDigitOf(r, s[i]) then RunTailEnd(s, i + 1, r)
    else if i + 1 < |s| && s[i] == '_' && IsDigitOf(r, s[i + 1]) then RunTailEnd(s, i + 2, r)
    else i
  }

  lemma {:induction false} RunTailEndSound(s: string, i: nat, r: Radix)
    requires i <= |s|
    ensures IsRunTail(s[i..RunTailEnd(s, i, r)], r)
    decreases |s| - i
  {
    var j := RunTailEnd(s, i, r);
    if i < |s| && IsDigitOf(r, s[i]) {
      RunTailEndSound(s, i + 1, r);
      assert s[i..j][1..] == s[i + 1..j];
    } else if i + 1 < |s| && s[i] == '_' && IsDigitOf(r, s[i + 1]) {
      RunTailEndSound(s, i + 2, r);
      assert s[i..j][2..] == s[i + 2..j];
    } else {
      assert s[i..i] == [];
    }
  }

  // The end of the longest `D(_?D)*` that starts at `i`, if there is one.
  function RunEnd(s: string, i: nat, r: Radix): (j: Option<nat>)
    requires i <= |s|
    ensures j.Some? ==> i < j.value <= |s|
    ensures j.None? <==> !(i < |s| && IsDigitOf(r, s[i]))
  {
    if i < |s| && IsDigitOf(r, s[i]) then Some(RunTailEnd(s, i + 1, r)) else None
  }

  lemma RunEndSound(s: string, i: nat, r: Radix)
    requires i <= |s| && RunEnd(s, i, r).Some?
    ensures IsRun(s[i..RunEnd(s, i, r).value], r)
  {
    var j := RunEnd(s, i, r).value;
    RunTailEndSound(s, i + 1, r);
    assert s[i..j][1..] == s[i + 1..j];
  }

  // The end of the longest `optional(exponentPart)` that starts at `j`.
  function OptExponentEnd(s: string, j: nat): (e: nat)
    requires j <= |s|
    ensures j <= e <= |s|
  {
    if j < |s| && (s[j] == 'e' || s[j] == 'E') then
      if RunEnd(s, j + 1, Dec).Some? then RunEnd(s, j + 1, Dec).value
      else if j + 1 < |s| && s[j + 1] == '-' && RunEnd(s, j + 2, Dec).Some? then RunEnd(s, j + 2, Dec).value
      else j
    else j
  }

  lemma OptExponentEndSound(s: string, j: nat)
    requires j <= |s|
    ensures IsOptExponent(s[j..OptExponentEnd(s, j)])
  {
    var e := OptExponentEnd(s, j);
    if e == j {
      assert s[j..j] == [];
    } else if RunEnd(s, j + 1, Dec).Some? {
      RunEndSound(s, j + 1, Dec);
      assert s[j..e][1..] == s[j + 1..e];
    } else {
      RunEndSound(s, j + 2, Dec);
      assert s[j..e][1..][1..] == s[j + 2..e];
    }
  }

  // The end of the longest `optional(decimalDigits)` that starts at `j`.
  function OptDigitsEnd(s: string, j: nat): (e: nat)
    requires j <= |s|
    ensures j <= e <= |s|
  {
    match RunEnd(s, j, Dec)
    case Some(e) => e
    case None => j
  }

  lemma OptDigitsEndSound(s: string, j: nat)
    requires j <= |s|
    ensures IsOptDigits(s[j..OptDigitsEnd(s, j)])
  {
    if RunEnd(s, j, Dec).Some? {
      RunEndSound(s, j, Dec);
    } else {
      assert s[j..j] == [];
    }
  }

  lemma NonZeroThenRunTail(s: string, i: nat, j: nat)
    requires i < j <= |s| && IsNonZeroDigit(s[i]) && IsRunTail(s[i + 1..j], Dec)
    ensures IsNonZeroInteger(s[i..j])
  {
    var u := s[i..j];
    assert u[1..] == s[i + 1..j];
    if |u| > 1 && u[1] == '_' {
      assert u[1..][2..] == u[2..][1..];
    }
  }

  // The end of the longest `decimalIntegerLiteral` that starts at the digit `s[pos]`.
  function IntegerEnd(s: string, pos: nat): (e: nat)
    requires pos < |s| && IsDecDigit(s[pos])
    ensures pos < e <= |s|
  {
    if s[pos] == '0' then
      if pos + 1 < |s| && IsNonZeroDigit(s[pos + 1]) then RunTailEnd(s, pos + 2, Dec)
      else pos + 1
    else RunTailEnd(s, pos + 1, Dec)
  }

  lemma IntegerEndSound(s: string, pos: nat)
    requires pos < |s| && IsDecDigit(s[pos])
    ensures IsDecimalIntegerLiteral(s[pos..IntegerEnd(s, pos)])
  {
    var e := IntegerEnd(s, pos);
    if s[pos] == '0' {
      if pos + 1 < |s| && IsNonZeroDigit(s[pos + 1]) {
        RunTailEndSound(s, pos + 2, Dec);
        NonZeroThenRunTail(s, pos + 1, e);
        assert s[pos..e][1..] == s[pos + 1..e];
      } else {
        assert s[pos..pos + 1] == "0";
      }
    } else {
      RunTailEndSound(s, pos + 1, Dec);
      NonZeroThenRunTail(s, pos, e);
    }
  }

  // The radix announced by a `0x`, `0b` or `0o` prefix at `pos` that is followed by a digit of that radix.
  function PrefixRadix(s: string, pos: nat): (r: Option<Radix>)
    requires pos <= |s|
    ensures r.Some? ==> r.value != Dec && pos + 2 < |s| && IsDigitOf(r.value, s[pos + 2])
  {
    if pos + 2 < |s| && s[pos] == '0' then
      if (s[pos + 1] == 'x' || s[pos + 1] == 'X') && IsHexDigit(s[pos + 2]) then Some(Hex)
      else if (s[pos + 1] == 'b' || s[pos + 1] == 'B') && IsBinDigit(s[pos + 2]) then Some(Bin)
      else if (s[pos + 1] == 'o' || s[pos + 1] == 'O') && IsOctDigit(s[pos + 2]) then Some(Oct)
      else None
    else None
  }

  // `hexLiteral`, `binaryLiteral` or `octalLiteral`, chosen by the letter after the `0`.
  predicate IsPrefixedLiteral(s: string, r: Radix) {
    match r
    case Hex => IsHexLiteral(s)
    case Bin => IsBinaryLiteral(s)
    case Oct => IsOctalLiteral(s)
    case Dec => IsDecimalDigits(s)
  }

  // A `0x`/`0b`/`0o` literal: its digit run, then an optional bigint `n`.
  function PrefixedLength(s: string, pos: nat, r: Radix): (n: nat)
    requires pos <= |s| && PrefixRadix(s, pos) == Some(r)
    ensures 3 <= n && pos + n <= |s|
  {
    var e := RunTailEnd(s, pos + 3, r);
    if e < |s| && s[e] == 'n' then e + 1 - pos else e - pos
  }

  // The digit run after a `0x`/`0b`/`0o` prefix is a `hexLiteral`, `binaryLiteral` or `octalLiteral`.
  lemma PrefixedRunSound(s: string, pos: nat, r: Radix)
    requires pos <= |s| && PrefixRadix(s, pos) == Some(r)
    ensures IsPrefixedLiteral(s[pos..RunTailEnd(s, pos + 3, r)], r)
  {
    var e := RunTailEnd(s, pos + 3, r);
    RunTailEndSound(s, pos + 3, r);
    var t := s[pos..e];
    assert t[2..] == s[pos + 2..e] && t[2..][1..] == s[pos + 3..e];
  }

  lemma PrefixedLengthSound(s: string, pos: nat, r: Radix)
    requires pos <= |s| && PrefixRadix(s, pos) == Some(r)
    ensures IsNumber(s[pos..pos + PrefixedLength(s, pos, r)])
  {
    var e := RunTailEnd(s, pos + 3, r);
    PrefixedRunSound(s, pos, r);
    if e < |s| && s[e] == 'n' {
      assert s[pos..e + 1][..e - pos] == s[pos..e];
      assert IsBigintLiteral(s[pos..e + 1]);
      assert s[pos..pos + PrefixedLength(s, pos, r)] == s[pos..e + 1];
    } else {
      assert s[pos..pos + PrefixedLength(s, pos, r)] == s[pos..e];
    }
  }

  lemma FractionIsDecimal(s: string, pos: nat, i: nat, f: nat, e: nat)
    requires pos <= i < f <= e <= |s| && s[i] == '.'
    requires IsDecimalIntegerLiteral(s[pos..i]) && IsOptDigits(s[i + 1..f]) && IsOptExponent(s[f..e])
    ensures IsDecimalLiteral(s[pos..e])
  {
    var t := s[pos..e];
    assert t[..i - pos] == s[pos..i] && t[i - pos] == '.';
    var u := t[i - pos + 1..];
    assert u[..f - i - 1] == s[i + 1..f] && u[f - i - 1..] == s[f..e];
    assert FractionSplit(u, f - i - 1);
    assert IntegerDotAt(t, i - pos);
  }

  lemma ExponentIsDecimal(s: string, pos: nat, i: nat, e: nat)
    requires pos <= i <= e <= |s|
    requires IsDecimalIntegerLiteral(s[pos..i]) && IsExponentPart(s[i..e])
    ensures IsDecimalLiteral(s[pos..e])
  {
    SplitSlice(s, pos, i, e);
    assert IntegerExponentAt(s[pos..e], i - pos);
  }

  // After the longest `decimalIntegerLiteral` ending at `i`: a fraction, an exponent, or the plain digit run ending at `d`.
  function DecimalEnd(s: string, pos: nat, i: nat, d: nat): (e: nat)
    requires pos < i <= d <= |s|
    ensures i <= e <= |s|
  {
    if i < |s| && s[i] == '.' then OptExponentEnd(s, OptDigitsEnd(s, i + 1))
    else if OptExponentEnd(s, i) > i then OptExponentEnd(s, i)
    else d
  }

  lemma DecimalEndSound(s: string, pos: nat, i: nat, d: nat)
    requires pos < i <= d <= |s| && IsDecimalIntegerLiteral(s[pos..i]) && IsDecimalDigits(s[pos..d])
    ensures IsDecimalLiteral(s[pos..DecimalEnd(s, pos, i, d)])
  {
    if i < |s| && s[i] == '.' {
      OptDigitsEndSound(s, i + 1);
      OptExponentEndSound(s, OptDigitsEnd(s, i + 1));
      FractionIsDecimal(s, pos, i, OptDigitsEnd(s, i + 1), OptExponentEnd(s, OptDigitsEnd(s, i + 1)));
    } else if OptExponentEnd(s, i) > i {
      OptExponentEndSound(s, i);
      ExponentIsDecimal(s, pos, i, OptExponentEnd(s, i));
    }
  }

  // A literal that starts with a decimal digit.
  function DigitsLength(s: string, pos: nat): (n: nat)
    requires pos < |s| && IsDecDigit(s[pos])
    ensures 0 < n && pos + n <= |s|
  {
    var d := RunEnd(s, pos, Dec).value;
    if d < |s| && s[d] == 'n' then d + 1 - pos
    else DecimalEnd(s, pos, IntegerEnd(s, pos), d) - pos
  }

  // A literal that starts with `.`: `seq(".", decimalDigits, optional(exponentPart))`.
  function DotLength(s: string, pos: nat): (n: Option<nat>)
    requires pos < |s| && s[pos] == '.'
    ensures n.Some? ==> 1 < n.value && pos + n.value <= |s|
    ensures n.None? <==> !(pos + 1 < |s| && IsDecDigit(s[pos + 1]))
  {
    match RunEnd(s, pos + 1, Dec)
    case None => None
    case Some(d) => Some(OptExponentEnd(s, d) - pos)
  }

  lemma DigitsLengthSound(s: string, pos: nat)
    requires pos < |s| && IsDecDigit(s[pos])
    ensures IsNumber(s[pos..pos + DigitsLength(s, pos)])
  {
    var d := RunEnd(s, pos, Dec).value;
    if d < |s| && s[d] == 'n' {
      DecimalBigintSound(s, pos, d);
    } else {
      DecimalDigitsSound(s, pos, d);
    }
  }

  // `decimalDigits "n"`
  lemma DecimalBigintSound(s: string, pos: nat, d: nat)
    requires pos < |s| && IsDecDigit(s[pos]) && RunEnd(s, pos, Dec) == Some(d) && d < |s| && s[d] == 'n'
    ensures IsNumber(s[pos..pos + DigitsLength(s, pos)])
  {
    assert pos + DigitsLength(s, pos) == d + 1;
    RunEndSound(s, pos, Dec);
    assert s[pos..d + 1][..d - pos] == s[pos..d];
    assert IsBigintLiteral(s[pos..d + 1]);
  }

  lemma DigitsLengthDecimal(s: string, pos: nat, d: nat)
    requires pos < |s| && IsDecDigit(s[pos]) && RunEnd(s, pos, Dec) == Some(d) && !(d < |s| && s[d] == 'n')
    ensures pos + DigitsLength(s, pos) == DecimalEnd(s, pos, IntegerEnd(s, pos), d)
  {
  }

  // A decimal literal other than a bigint
  lemma DecimalDigitsSound(s: string, pos: nat, d: nat)
    requires pos < |s| && IsDecDigit(s[pos]) && RunEnd(s, pos, Dec) == Some(d) && !(d < |s| && s[d] == 'n')
    ensures IsNumber(s[pos..pos + DigitsLength(s, pos)])
  {
    DigitsLengthDecimal(s, pos, d);
    DecimalAfterRunSound(s, pos, d);
    assert s[pos..pos + DigitsLength(s, pos)] == s[pos..DecimalEnd(s, pos, IntegerEnd(s, pos), d)];
  }

  lemma DecimalAfterRunSound(s: string, pos: nat, d: nat)
    requires pos < |s| && IsDecDigit(s[pos]) && RunEnd(s, pos, Dec) == Some(d)
    ensures IsNumber(s[pos..DecimalEnd(s, pos, IntegerEnd(s, pos), d)])
  {
    IntegerEndSound(s, pos);
    RunEndSound(s, pos, Dec);
    DecimalEndSound(s, pos, IntegerEnd(s, pos), d);
  }

  lemma DotLengthSound(s: string, pos: nat)
    requires pos < |s| && s[pos] == '.' && DotLength(s, pos).Some?
    ensures IsNumber(s[pos..pos + DotLength(s, pos).value])
  {
    var d := RunEnd(s, pos + 1, Dec).value;
    var e := OptExponentEnd(s, d);
    RunEndSound(s, pos + 1, Dec);
    OptExponentEndSound(s, d);
    DotDigitsSound(s, pos, d, e);
    assert s[pos..pos + DotLength(s, pos).value] == s[pos..e];
  }

  // `"." decimalDigits exponentPart?`, the digits ending at `d` and the exponent at `e`
  lemma DotDigitsSound(s: string, pos: nat, d: nat, e: nat)
    requires pos < d <= e <= |s| && s[pos] == '.' && IsDecimalDigits(s[pos + 1..d]) && IsOptExponent(s[d..e])
    ensures IsNumber(s[pos..e])
  {
    var t := s[pos..e];
    assert t[1..][..d - pos - 1] == s[pos + 1..d] && t[1..][d - pos - 1..] == s[d..e];
    assert DigitsExponentSplit(t[1..], d - pos - 1);
  }

  // The length of the `number` token the lexer takes at `pos`, or `None`.
  function MatchNumber(s: string, pos: nat): (n: Option<nat>)
    requires pos <= |s|
    ensures n.Some? ==> 0 < n.value && pos + n.value <= |s|
    ensures n.Some? ==> IsDecDigit(s[pos]) || s[pos] == '.'
  {
    match PrefixRadix(s, pos)
    case Some(r) => Some(PrefixedLength(s, pos, r))
    case None =>
      if pos < |s| && IsDecDigit(s[pos]) then Some(DigitsLength(s, pos))
      else if pos < |s| && s[pos] == '.' then DotLength(s, pos)
      else None
  }

  // What the scanner reads is a `number`.
  lemma MatchNumberSound(s: string, pos: nat)
    requires pos <= |s| && MatchNumber(s, pos).Some?
    ensures IsNumber(s[pos..pos + MatchNumber(s, pos).value])
  {
    var n := MatchNumber(s, pos).value;
    match PrefixRadix(s, pos)
    case Some(r) =>
      PrefixedLengthSound(s, pos, r);
      assert s[pos..pos + n] == s[pos..pos + PrefixedLength(s, pos, r)];
    case None =>
      if IsDecDigit(s[pos]) {
        DigitsLengthSound(s, pos);
        assert s[pos..pos + n] == s[pos..pos + DigitsLength(s, pos)];
      } else {
        DotLengthSound(s, pos);
        assert s[pos..pos + n] == s[pos..pos + DotLength(s, pos).value];
      }
  }

  // ---------------------------------------------------------------------------
  // Properties of the language of `number`
  // ---------------------------------------------------------------------------

  // The radix a literal announces: `0x`/`0X`, `0b`/`0B`, `0o`/`0O`, and decimal otherwise.
  function RadixOf(s: string): Radix {
    if |s| >= 2 && s[0] == '0' && (s[1] == 'x' || s[1] == 'X') then Hex
    else if |s| >= 2 && s[0] == '0' && (s[1] == 'b' || s[1] == 'B') then Bin
    else if |s| >= 2 && s[0] == '0' && (s[1] == 'o' || s[1] == 'O') then Oct
    else Dec
  }

  lemma SeparatorsConcat(a: string, b: string, r: Radix)
    requires SeparatorsBetweenDigits(a, r) && SeparatorsBetweenDigits(b, r)
    ensures SeparatorsBetweenDigits(a + b, r)
  {
    var s := a + b;
    forall i | 0 <= i < |s| && s[i] == '_'
      ensures 0 < i < |s| - 1 && IsDigitOf(r, s[i - 1]) && IsDigitOf(r, s[i + 1])
    {
      if i < |a| {
        assert a[i] == '_';
      } else {
        assert b[i - |a|] == '_';
      }
    }
  }

  lemma NoSeparators(s: string, r: Radix)
    requires forall i | 0 <= i < |s| :: s[i] != '_'
    ensures SeparatorsBetweenDigits(s, r)
  {
  }

  lemma RunSeparators(s: string, r: Radix)
    requires IsRun(s, r)
    ensures SeparatorsBetweenDigits(s, r)
    ensures forall i | 0 <= i < |s| :: IsDigitOf(r, s[i]) || s[i] == '_'
  {
    RunIsSeparatedDigits(s, r);
  }

  lemma IntegerIsDigits(s: string)
    requires IsDecimalIntegerLiteral(s)
    ensures IsDecimalDigits(s)
  {
    if |s| >= 2 && s[0] == '0' && IsNonZeroInteger(s[1..]) {
      assert s[1..][1..] == s[2..];
      if |s| > 2 && s[2] == '_' {
        assert s[1..][2..] == s[3..];
      }
    } else if IsNonZeroInteger(s) && |s| > 1 && s[1] == '_' {
      assert s[2..][1..] == s[1..][2..];
    }
  }

  // `exponentPart` is `e`/`E`, an optional `-`, then a decimal digit run.
  lemma ExponentShape(s: string)
    requires IsExponentPart(s)
    ensures s[0] == 'e' || s[0] == 'E'
    ensures SeparatorsBetweenDigits(s, Dec)
    ensures forall i | 1 <= i < |s| :: IsDecDigit(s[i]) || s[i] == '_' || (i == 1 && s[i] == '-')
    ensures |s| >= 2 && (s[1] == '-' ==> |s| >= 3 && IsDecDigit(s[2]))
    ensures MinusOnlyInExponent(s)
  {
    if IsDecimalDigits(s[1..]) {
      RunSeparators(s[1..], Dec);
      SeparatorsConcat(s[..1], s[1..], Dec);
      assert s == s[..1] + s[1..];
    } else {
      assert s[1..][1..] == s[2..];
      RunSeparators(s[2..], Dec);
      SeparatorsConcat(s[..2], s[2..], Dec);
      assert s == s[..2] + s[2..];
    }
  }

  predicate IsDecimalChar(c: char) {
    IsDecDigit(c) || c == '_' || c == '.' || c == 'e' || c == 'E' || c == '-'
  }

  // Every `-` of `s` opens the digits of an exponent: right after `e`/`E`, right before a digit.
  predicate MinusOnlyInExponent(s: string) {
    forall i | 0 <= i < |s| && s[i] == '-' :: 0 < i < |s| - 1 && (s[i - 1] == 'e' || s[i - 1] == 'E') && IsDecDigit(s[i + 1])
  }

  // Written with digits, `_`, `.`, `e`, `E` and `-` only, each `_` between two decimal digits,
  // each `-` between an `e`/`E` and a digit.
  predicate DecimalShaped(s: string) {
    && (forall i | 0 <= i < |s| :: IsDecimalChar(s[i]))
    && SeparatorsBetweenDigits(s, Dec)
    && MinusOnlyInExponent(s)
  }

  lemma DecimalShapedConcat(a: string, b: string)
    requires DecimalShaped(a) && DecimalShaped(b)
    ensures DecimalShaped(a + b)
  {
    SeparatorsConcat(a, b, Dec);
    var s := a + b;
    assert forall i | 0 <= i < |s| :: s[i] == if i < |a| then a[i] else b[i - |a|];
    forall i | 0 <= i < |s| && s[i] == '-'
      ensures 0 < i < |s| - 1 && (s[i - 1] == 'e' || s[i - 1] == 'E') && IsDecDigit(s[i + 1])
    {
      if i < |a| { assert a[i] == '-'; } else { assert b[i - |a|] == '-'; }
    }
  }

  lemma DigitsShaped(s: string)
    requires IsOptDigits(s)
    ensures DecimalShaped(s)
  {
    if s != [] { RunSeparators(s, Dec); }
  }

  lemma ExponentShaped(s: string)
    requires IsOptExponent(s)
    ensures DecimalShaped(s)
  {
    if s != [] { ExponentShape(s); }
  }

  lemma DotShaped(s: string)
    requires s == "."
    ensures DecimalShaped(s)
  {
  }

  // Digits up to `j`, then an optional exponent.
  lemma OptPartsShaped(u: string, j: nat)
    requires j <= |u| && IsOptDigits(u[..j]) && IsOptExponent(u[j..])
    ensures DecimalShaped(u)
  {
    DigitsShaped(u[..j]);
    ExponentShaped(u[j..]);
    DecimalShapedConcat(u[..j], u[j..]);
    assert u == u[..j] + u[j..];
  }

  // A shaped string, the character `s[i]`, and another shaped string.
  lemma AroundShaped(s: string, i: nat)
    requires i < |s| && DecimalShaped(s[..i]) && DecimalShaped([s[i]]) && DecimalShaped(s[i + 1..])
    ensures DecimalShaped(s)
  {
    DecimalShapedConcat(s[..i], [s[i]]);
    DecimalShapedConcat(s[..i] + [s[i]], s[i + 1..]);
    assert s == s[..i] + [s[i]] + s[i + 1..];
  }

  // `decimalIntegerLiteral "." decimalDigits? exponentPart?`
  lemma FractionShaped(s: string, i: nat, j: nat)
    requires i < |s| && IsDecimalIntegerLiteral(s[..i]) && s[i] == '.'
    requires i + 1 + j <= |s| && IsOptDigits(s[i + 1..][..j]) && IsOptExponent(s[i + 1..][j..])
    ensures DecimalShaped(s)
  {
    IntegerIsDigits(s[..i]);
    DigitsShaped(s[..i]);
    DotShaped([s[i]]);
    OptPartsShaped(s[i + 1..], j);
    AroundShaped(s, i);
  }

  // `"." decimalDigits exponentPart?`
  lemma LeadingDotShaped(s: string, j: nat)
    requires |s| >= 1 && s[0] == '.' && 1 + j <= |s| && IsDecimalDigits(s[1..][..j]) && IsOptExponent(s[1..][j..])
    ensures DecimalShaped(s)
  {
    OptPartsShaped(s[1..], j);
    DotShaped([s[0]]);
    assert s[..0] == [];
    AroundShaped(s, 0);
  }

  // `decimalIntegerLiteral exponentPart`
  lemma IntegerExponentShaped(s: string, i: nat)
    requires i <= |s| && IsDecimalIntegerLiteral(s[..i]) && IsExponentPart(s[i..])
    ensures DecimalShaped(s)
  {
    IntegerIsDigits(s[..i]);
    DigitsShaped(s[..i]);
    ExponentShaped(s[i..]);
    DecimalShapedConcat(s[..i], s[i..]);
    assert s == s[..i] + s[i..];
  }

  // A decimal literal is written with digits, `_`, `.`, `e`, `E` and `-` only,
  // and each of its `_` sits between two decimal digits.
  lemma DecimalLiteralShaped(s: string)
    requires IsDecimalLiteral(s)
    ensures DecimalShaped(s)
  {
    if i: nat :| IntegerDotAt(s, i) {
      assert IntegerDotAt(s, i);
      var j: nat :| FractionSplit(s[i + 1..], j);
      assert FractionSplit(s[i + 1..], j);
      FractionShaped(s, i, j);
    } else if |s| >= 1 && s[0] == '.' && IsDigitsThenExponent(s[1..]) {
      var j: nat :| DigitsExponentSplit(s[1..], j);
      assert DigitsExponentSplit(s[1..], j);
      LeadingDotShaped(s, j);
    } else if i: nat :| IntegerExponentAt(s, i) {
      assert IntegerExponentAt(s, i);
      IntegerExponentShaped(s, i);
    } else {
      DigitsShaped(s);
    }
  }

  lemma PrefixedSeparators(s: string, r: Radix)
    requires |s| >= 2 && s[0] == '0' && s[1] != '_' && IsRun(s[2..], r)
    ensures SeparatorsBetweenDigits(s, r)
  {
    RunSeparators(s[2..], r);
    NoSeparators(s[..2], r);
    SeparatorsConcat(s[..2], s[2..], r);
    assert s == s[..2] + s[2..];
  }

  lemma IntegerFormSeparators(s: string)
    requires IsIntegerForm(s)
    ensures SeparatorsBetweenDigits(s, RadixOf(s))
  {
    if IsHexLiteral(s) {
      PrefixedSeparators(s, Hex);
    } else if IsBinaryLiteral(s) {
      PrefixedSeparators(s, Bin);
    } else if IsOctalLiteral(s) {
      PrefixedSeparators(s, Oct);
    } else {
      RunSeparators(s, Dec);
      assert RadixOf(s) == Dec by {
        if |s| >= 2 { assert IsDigitOf(Dec, s[1]) || s[1] == '_'; }
      }
    }
  }

  lemma DecimalRadix(s: string)
    requires IsDecimalLiteral(s)
    ensures RadixOf(s) == Dec && SeparatorsBetweenDigits(s, Dec)
  {
    DecimalLiteralShaped(s);
    if |s| >= 2 { assert IsDecimalChar(s[1]); }
  }

  lemma DecimalNonEmpty(s: string)
    requires IsDecimalLiteral(s)
    ensures |s| > 0
  {
  }

  // In every literal, each `_` sits between two digits of the literal's own radix:
  // never leading, never trailing, never doubled.
  lemma NumberSeparators(s: string)
    requires IsNumber(s)
    ensures SeparatorsBetweenDigits(s, RadixOf(s))
  {
    if IsBigintLiteral(s) {
      var b := s[..|s| - 1];
      IntegerFormSeparators(b);
      NoSeparators([s[|s| - 1]], RadixOf(b));
      SeparatorsConcat(b, [s[|s| - 1]], RadixOf(b));
      assert s == b + [s[|s| - 1]];
      assert RadixOf(b) == RadixOf(s) by {
        if |b| == 1 { assert s[1] == 'n'; }
      }
    } else if IsDecimalLiteral(s) {
      DecimalRadix(s);
    } else {
      IntegerFormSeparators(s);
    }
  }

  // A hexadecimal, binary, octal or plain decimal integer: the digits of its radix and `_`,
  // after the `0` and the radix letter of a prefixed form.
  lemma IntegerFormAlphabet(s: string)
    requires IsIntegerForm(s)
    ensures forall i | 0 <= i < |s| ::
      || IsDigitOf(RadixOf(s), s[i]) || s[i] == '_'
      || (i == 0 && s[i] == '0') || (i == 1 && RadixOf(s) != Dec)
  {
    if IsHexLiteral(s) || IsBinaryLiteral(s) || IsOctalLiteral(s) {
      RunSeparators(s[2..], RadixOf(s));
      assert forall i | 2 <= i < |s| :: s[i] == s[2..][i - 2];
    } else {
      RunSeparators(s, Dec);
      assert RadixOf(s) == Dec by {
        if |s| >= 2 { assert IsDigitOf(Dec, s[1]) || s[1] == '_'; }
      }
    }
  }

  // The bigint suffix follows an integer only: a bigint has no `.`, no exponent sign,
  // and no `e`/`E` unless those are hexadecimal digits.
  lemma BigintIsInteger(s: string)
    requires IsBigintLiteral(s)
    ensures '.' !in s && '-' !in s && '+' !in s
    ensures RadixOf(s) != Hex ==> 'e' !in s && 'E' !in s
  {
    var b := s[..|s| - 1];
    IntegerFormAlphabet(b);
    assert RadixOf(b) == RadixOf(s) by {
      if |b| == 1 { assert s[1] == 'n'; }
    }
    assert forall i | 0 <= i < |b| :: s[i] == b[i];
  }

  // Only a bigint ends in `n`.
  lemma SuffixMeansBigint(s: string)
    requires IsNumber(s)
    ensures |s| > 0
    ensures s[|s| - 1] == 'n' <==> IsBigintLiteral(s)
  {
    if IsDecimalLiteral(s) {
      DecimalLiteralShaped(s);
      DecimalNonEmpty(s);
    }
    if IsHexLiteral(s) || IsBinaryLiteral(s) || IsOctalLiteral(s) {
      IntegerFormAlphabet(s);
    }
  }

  // A literal with a `.` or with an exponent is never a bigint.
  lemma FractionOrExponentIsNotBigint(s: string)
    requires IsNumber(s)
    requires '.' in s || '-' in s || (RadixOf(s) != Hex && ('e' in s || 'E' in s))
    ensures !IsBigintLiteral(s) && s[|s| - 1] != 'n'
  {
    SuffixMeansBigint(s);
    if IsBigintLiteral(s) {
      BigintIsInteger(s);
    }
  }

  // An exponent is `e`/`E`, an optional `-` and decimal digits: no literal has a `+`,
  // and every `-` stands between an `e`/`E` and a digit.
  lemma NumberSigns(s: string)
    requires IsNumber(s)
    ensures '+' !in s
    ensures MinusOnlyInExponent(s)
  {
    if IsDecimalLiteral(s) {
      DecimalLiteralShaped(s);
    } else if IsBigintLiteral(s) {
      BigintIsInteger(s);
    } else {
      IntegerFormAlphabet(s);
    }
  }

  // ---------------------------------------------------------------------------
  // The scanner takes the longest `number`
  // ---------------------------------------------------------------------------

  lemma {:induction false} RunTailEndLongest(s: string, i: nat, k: nat, r: Radix)
    requires i <= k <= |s| && IsRunTail(s[i..k], r)
    ensures k <= RunTailEnd(s, i, r)
    decreases k - i
  {
    if k > i {
      var t := s[i..k];
      if IsDigitOf(r, t[0]) && IsRunTail(t[1..], r) {
        assert t[1..] == s[i + 1..k];
        RunTailEndLongest(s, i + 1, k, r);
      } else {
        assert t[2..] == s[i + 2..k];
        assert !IsDigitOf(r, '_');
        RunTailEndLongest(s, i + 2, k, r);
      }
    }
  }

  lemma RunEndLongest(s: string, i: nat, k: nat, r: Radix)
    requires i <= k <= |s| && IsRun(s[i..k], r)
    ensures RunEnd(s, i, r).Some? && k <= RunEnd(s, i, r).value
  {
    assert s[i..k][1..] == s[i + 1..k];
    RunTailEndLongest(s, i + 1, k, r);
  }

  // Everything the run scanner passed over is a digit or a `_`.
  lemma RunEndChars(s: string, i: nat, r: Radix)
    requires i <= |s| && RunEnd(s, i, r).Some?
    ensures forall k | i <= k < RunEnd(s, i, r).value :: IsDigitOf(r, s[k]) || s[k] == '_'
  {
    var j := RunEnd(s, i, r).value;
    RunEndSound(s, i, r);
    RunSeparators(s[i..j], r);
    assert forall k | i <= k < j :: s[k] == s[i..j][k - i];
  }

  lemma NonZeroIsDigitTail(v: string)
    requires IsNonZeroInteger(v)
    ensures IsRunTail(v[1..], Dec)
  {
    if |v| > 1 && IsDecimalDigits(v[1..]) {
      assert v[1..][1..] == v[2..];
    } else if |v| > 1 {
      assert v[1..][2..] == v[2..][1..];
    }
  }

  lemma IntegerEndLongest(s: string, pos: nat, k: nat)
    requires pos < |s| && IsDecDigit(s[pos]) && pos <= k <= |s| && IsDecimalIntegerLiteral(s[pos..k])
    ensures k <= IntegerEnd(s, pos)
  {
    var v := s[pos..k];
    if v == "0" {
    } else if IsNonZeroInteger(v) {
      NonZeroIsDigitTail(v);
      assert v[1..] == s[pos + 1..k];
      RunTailEndLongest(s, pos + 1, k, Dec);
    } else {
      var w := v[1..];
      assert w == s[pos + 1..k];
      NonZeroIsDigitTail(w);
      assert w[1..] == s[pos + 2..k];
      RunTailEndLongest(s, pos + 2, k, Dec);
    }
  }

  lemma OptExponentEndLongest(s: string, j: nat, k: nat)
    requires j <= k <= |s| && IsExponentPart(s[j..k])
    ensures k <= OptExponentEnd(s, j)
  {
    var t := s[j..k];
    assert t[1..] == s[j + 1..k];
    if IsDecimalDigits(t[1..]) {
      RunEndLongest(s, j + 1, k, Dec);
    } else {
      assert t[1..][1..] == s[j + 2..k];
      RunEndLongest(s, j + 2, k, Dec);
    }
  }

  lemma DigitsEndLongest(s: string, j: nat, k: nat)
    requires j <= k <= |s| && IsDecimalDigits(s[j..k])
    ensures k <= OptDigitsEnd(s, j)
  {
    RunEndLongest(s, j, k, Dec);
  }

  lemma RunTailEndChars(s: string, i: nat, r: Radix)
    requires i <= |s|
    ensures forall k | i <= k < RunTailEnd(s, i, r) :: IsDigitOf(r, s[k]) || s[k] == '_'
  {
    var j := RunTailEnd(s, i, r);
    RunTailEndSound(s, i, r);
    RunTailSeparated(s[i..j], r);
    assert forall k | i <= k < j :: s[k] == s[i..j][k - i];
  }

  // Past a `decimalIntegerLiteral`, the decimal scanner never stops short of the digit run.
  lemma DecimalEndCoversRun(s: string, pos: nat, i: nat, d: nat)
    requires pos < i <= d <= |s| && IsDecimalIntegerLiteral(s[pos..i]) && IsDecimalDigits(s[pos..d])
    ensures DecimalEnd(s, pos, i, d) >= d
  {
    RunSeparators(s[pos..d], Dec);
    if i < d {
      assert s[i] == s[pos..d][i - pos];
    }
  }

  // A `decimalIntegerLiteral` at `pos` ends where the digit run at `pos` ends, if a `.` or an exponent follows it.
  lemma IntegerPartEndsRun(s: string, pos: nat, c: nat)
    requires pos <= c < |s| && IsDecimalIntegerLiteral(s[pos..c]) && !IsDecDigit(s[c]) && s[c] != '_'
    ensures IsDecDigit(s[pos]) && RunEnd(s, pos, Dec).Some?
    ensures c == RunEnd(s, pos, Dec).value == IntegerEnd(s, pos)
  {
    IntegerIsDigits(s[pos..c]);
    RunEndLongest(s, pos, c, Dec);
    RunEndChars(s, pos, Dec);
    IntegerEndLongest(s, pos, c);
    var i := IntegerEnd(s, pos);
    IntegerEndSound(s, pos);
    IntegerIsDigits(s[pos..i]);
    RunEndLongest(s, pos, i, Dec);
  }

  lemma PrefixedLongest(s: string, pos: nat, k: nat, r: Radix)
    requires pos <= k <= |s| && r != Dec && IsPrefixedLiteral(s[pos..k], r)
    ensures PrefixRadix(s, pos) == Some(r) && k <= pos + PrefixedLength(s, pos, r)
  {
    var u := s[pos..k];
    assert u[2..] == s[pos + 2..k] && u[2..][1..] == s[pos + 3..k];
    RunTailEndLongest(s, pos + 3, k, r);
  }

  // A `0x`/`0b`/`0o` bigint ending at `k`
  lemma PrefixedBigintLongest(s: string, pos: nat, k: nat, r: Radix)
    requires pos < k <= |s| && r != Dec && IsPrefixedLiteral(s[pos..k - 1], r) && s[k - 1] == 'n'
    ensures PrefixRadix(s, pos) == Some(r) && k <= pos + PrefixedLength(s, pos, r)
  {
    PrefixedLongest(s, pos, k - 1, r);
    var u := s[pos..k - 1];
    assert u[2..][1..] == s[pos + 3..k - 1];
    RunTailEndLongest(s, pos + 3, k - 1, r);
    RunTailEndChars(s, pos + 3, r);
    assert !IsDigitOf(r, 'n');
    assert RunTailEnd(s, pos + 3, r) == k - 1;
  }

  // A decimal bigint `decimalDigits "n"` ending at `k`
  lemma DecimalBigintLongest(s: string, pos: nat, k: nat)
    requires pos < k <= |s| && IsDecimalDigits(s[pos..k - 1]) && s[k - 1] == 'n'
    ensures PrefixRadix(s, pos).None? && IsDecDigit(s[pos]) && k <= pos + DigitsLength(s, pos)
  {
    var b := s[pos..k - 1];
    assert s[pos] == b[0];
    RunSeparators(b, Dec);
    assert PrefixRadix(s, pos).None? by {
      if |b| >= 2 { assert s[pos + 1] == b[1]; } else { assert s[pos + 1] == 'n'; }
    }
    RunEndLongest(s, pos, k - 1, Dec);
    RunEndChars(s, pos, Dec);
  }

  lemma BigintLongest(s: string, pos: nat, k: nat)
    requires pos <= k <= |s| && IsBigintLiteral(s[pos..k])
    ensures MatchNumber(s, pos).Some? && k <= pos + MatchNumber(s, pos).value
  {
    SplitSlice(s, pos, k - 1, k);
    var b := s[pos..k - 1];
    assert s[k - 1] == s[pos..k][k - 1 - pos];
    if IsHexLiteral(b) {
      PrefixedBigintLongest(s, pos, k, Hex);
    } else if IsBinaryLiteral(b) {
      PrefixedBigintLongest(s, pos, k, Bin);
    } else if IsOctalLiteral(b) {
      PrefixedBigintLongest(s, pos, k, Oct);
    } else {
      DecimalBigintLongest(s, pos, k);
    }
  }

  // A split of the slice `s[a..k]` is a split of `s` at `a + j`.
  lemma DigitsExponentSplitIn(s: string, a: nat, k: nat, j: nat)
    requires a <= k <= |s| && DigitsExponentSplit(s[a..k], j)
    ensures a + j <= k && IsDecimalDigits(s[a..a + j]) && IsOptExponent(s[a + j..k])
  {
    SplitSlice(s, a, a + j, k);
  }

  lemma FractionSplitIn(s: string, a: nat, k: nat, j: nat)
    requires a <= k <= |s| && FractionSplit(s[a..k], j)
    ensures a + j <= k && IsOptDigits(s[a..a + j]) && IsOptExponent(s[a + j..k])
  {
    SplitSlice(s, a, a + j, k);
  }

  // How a slice of a slice of `s` is a slice of `s`.
  lemma SplitSlice(s: string, a: nat, m: nat, b: nat)
    requires a <= m <= b <= |s|
    ensures s[a..b][..m - a] == s[a..m] && s[a..b][m - a..] == s[m..b]
  {
  }

  lemma DotPartsLongest(s: string, pos: nat, m: nat, k: nat)
    requires pos < m <= k <= |s| && s[pos] == '.' && IsDecimalDigits(s[pos + 1..m]) && IsOptExponent(s[m..k])
    ensures DotLength(s, pos).Some? && k <= pos + DotLength(s, pos).value
  {
    RunEndLongest(s, pos + 1, m, Dec);
    RunEndChars(s, pos + 1, Dec);
    var d := RunEnd(s, pos + 1, Dec).value;
    if m < k {
      assert s[m] == s[m..k][0];
      assert m == d;
      OptExponentEndLongest(s, d, k);
    }
  }

  lemma DotLongest(s: string, pos: nat, k: nat)
    requires pos < k <= |s| && s[pos] == '.' && IsDigitsThenExponent(s[pos + 1..k])
    ensures DotLength(s, pos).Some? && k <= pos + DotLength(s, pos).value
  {
    var w := s[pos + 1..k];
    var j: nat :| DigitsExponentSplit(w, j);
    DigitsExponentSplitIn(s, pos + 1, k, j);
    DotPartsLongest(s, pos, pos + 1 + j, k);
  }

  // Where the digit run and the `decimalIntegerLiteral` at `pos` both end at `c`, before a character other than `n`
  lemma DigitsLengthAfterInteger(s: string, pos: nat, c: nat)
    requires pos < c < |s| && IsDecDigit(s[pos]) && s[c] != 'n'
    requires RunEnd(s, pos, Dec) == Some(c) && IntegerEnd(s, pos) == c
    ensures pos + DigitsLength(s, pos) == DecimalEnd(s, pos, c, c)
  {
  }

  // Optional digits from `j` to `m`, then an `e` or `E`: the digit scanner stops at `m`.
  lemma OptDigitsEndAtExponent(s: string, j: nat, m: nat)
    requires j <= m < |s| && IsOptDigits(s[j..m]) && (s[m] == 'e' || s[m] == 'E')
    ensures OptDigitsEnd(s, j) == m
  {
    if m > j { DigitsEndLongest(s, j, m); }
    if RunEnd(s, j, Dec).Some? { RunEndChars(s, j, Dec); }
  }

  // Optional digits from `j` to `m`, then an optional exponent to `k`: the scanner reads at least to `k`.
  lemma OptPartsLongest(s: string, j: nat, m: nat, k: nat)
    requires j <= m <= k <= |s| && IsOptDigits(s[j..m]) && IsOptExponent(s[m..k])
    ensures k <= OptExponentEnd(s, OptDigitsEnd(s, j))
  {
    if m < k {
      assert s[m] == s[m..k][0];
      OptDigitsEndAtExponent(s, j, m);
      OptExponentEndLongest(s, m, k);
    } else if m > j {
      DigitsEndLongest(s, j, m);
    }
  }

  // The digit run and the `decimalIntegerLiteral` at `pos` end at `c`, then `.`, optional digits to `m`,
  // optional exponent to `k`
  lemma FractionAfterRunLongest(s: string, pos: nat, c: nat, m: nat, k: nat)
    requires pos < c < m <= k <= |s| && s[c] == '.' && IsDecDigit(s[pos])
    requires RunEnd(s, pos, Dec) == Some(c) && IntegerEnd(s, pos) == c
    requires IsOptDigits(s[c + 1..m]) && IsOptExponent(s[m..k])
    ensures k <= pos + DigitsLength(s, pos)
  {
    DigitsLengthAfterInteger(s, pos, c);
    OptPartsLongest(s, c + 1, m, k);
  }

  // `decimalIntegerLiteral` to `c`, `.`, optional digits to `m`, optional exponent to `k`
  lemma FractionPartsLongest(s: string, pos: nat, c: nat, m: nat, k: nat)
    requires pos <= c < m <= k <= |s| && s[c] == '.'
    requires IsDecimalIntegerLiteral(s[pos..c]) && IsOptDigits(s[c + 1..m]) && IsOptExponent(s[m..k])
    ensures IsDecDigit(s[pos]) && k <= pos + DigitsLength(s, pos)
  {
    IntegerPartEndsRun(s, pos, c);
    FractionAfterRunLongest(s, pos, c, m, k);
  }

  // `decimalIntegerLiteral "." decimalDigits? exponentPart?`, ending at `k`
  lemma FractionLongest(s: string, pos: nat, c: nat, k: nat)
    requires pos <= c < k <= |s| && IsDecimalIntegerLiteral(s[pos..c]) && s[c] == '.' && IsFraction(s[c + 1..k])
    ensures IsDecDigit(s[pos]) && k <= pos + DigitsLength(s, pos)
  {
    var j: nat :| j <= k - (c + 1) && FractionSplit(s[c + 1..k], j);
    FractionSplitIn(s, c + 1, k, j);
    FractionPartsLongest(s, pos, c, c + 1 + j, k);
  }

  // `decimalIntegerLiteral exponentPart`, ending at `k`
  lemma IntegerExponentLongest(s: string, pos: nat, c: nat, k: nat)
    requires pos <= c <= k <= |s| && IsDecimalIntegerLiteral(s[pos..c]) && IsExponentPart(s[c..k])
    ensures IsDecDigit(s[pos]) && k <= pos + DigitsLength(s, pos)
  {
    assert s[c] == s[c..k][0];
    IntegerPartEndsRun(s, pos, c);
    OptExponentEndLongest(s, c, k);
  }

  // A bare `decimalDigits` ending at `k`
  lemma DigitsOnlyLongest(s: string, pos: nat, k: nat)
    requires pos <= k <= |s| && IsDecimalDigits(s[pos..k])
    ensures IsDecDigit(s[pos]) && k <= pos + DigitsLength(s, pos)
  {
    assert s[pos] == s[pos..k][0];
    RunEndLongest(s, pos, k, Dec);
    var d := RunEnd(s, pos, Dec).value;
    if !(d < |s| && s[d] == 'n') {
      var i := IntegerEnd(s, pos);
      IntegerEndSound(s, pos);
      RunEndSound(s, pos, Dec);
    IntegerIsDigits(s[pos..i]);
      RunEndLongest(s, pos, i, Dec);
      DecimalEndCoversRun(s, pos, i, d);
    }
  }

  lemma FractionAltLongest(s: string, pos: nat, k: nat, i: nat)
    requires pos <= k <= |s| && i < k - pos
    requires IntegerDotAt(s[pos..k], i)
    ensures pos < |s| && IsDecDigit(s[pos]) && k <= pos + DigitsLength(s, pos)
  {
    var u := s[pos..k];
    assert IsDecimalIntegerLiteral(s[pos..pos + i]) by { SplitSlice(s, pos, pos + i, k); }
    assert IsFraction(s[pos + i + 1..k]) by { SplitSlice(s, pos, pos + i + 1, k); }
    assert s[pos + i] == '.';
    FractionLongest(s, pos, pos + i, k);
  }

  lemma DotAltLongest(s: string, pos: nat, k: nat)
    requires pos < k <= |s| && s[pos..k][0] == '.' && IsDigitsThenExponent(s[pos..k][1..])
    ensures pos < |s| && s[pos] == '.' && DotLength(s, pos).Some? && k <= pos + DotLength(s, pos).value
  {
    SplitSlice(s, pos, pos + 1, k);
    DotLongest(s, pos, k);
  }

  lemma ExponentAltLongest(s: string, pos: nat, k: nat, i: nat)
    requires pos <= k <= |s| && i <= k - pos
    requires IntegerExponentAt(s[pos..k], i)
    ensures pos < |s| && IsDecDigit(s[pos]) && k <= pos + DigitsLength(s, pos)
  {
    SplitSlice(s, pos, pos + i, k);
    IntegerExponentLongest(s, pos, pos + i, k);
  }

  // Each alternative of `decimalLiteral` lies inside what the digit or the dot scanner reads.
  lemma DecimalAlternativesLongest(s: string, pos: nat, k: nat)
    requires pos <= k <= |s| && IsDecimalLiteral(s[pos..k])
    ensures || (pos < |s| && IsDecDigit(s[pos]) && k <= pos + DigitsLength(s, pos))
            || (pos < |s| && s[pos] == '.' && DotLength(s, pos).Some? && k <= pos + DotLength(s, pos).value)
  {
    var u := s[pos..k];
    if i: nat :| IntegerDotAt(u, i) {
      assert IntegerDotAt(u, i);
      FractionAltLongest(s, pos, k, i);
    } else if |u| >= 1 && u[0] == '.' && IsDigitsThenExponent(u[1..]) {
      DotAltLongest(s, pos, k);
    } else if i: nat :| IntegerExponentAt(u, i) {
      assert IntegerExponentAt(u, i);
      ExponentAltLongest(s, pos, k, i);
    } else {
      DigitsOnlyLongest(s, pos, k);
    }
  }

  // No radix letter can follow the `0` of a decimal literal.
  lemma ShapedNotPrefixed(s: string, pos: nat, k: nat)
    requires pos + 1 < k <= |s| && DecimalShaped(s[pos..k])
    ensures PrefixRadix(s, pos).None?
  {
    assert s[pos + 1] == s[pos..k][1];
  }

  // A decimal literal at `pos` sits inside whatever the scanner reads there.
  lemma DecimalLongest(s: string, pos: nat, k: nat)
    requires pos <= k <= |s| && IsDecimalLiteral(s[pos..k])
    ensures MatchNumber(s, pos).Some? && k <= pos + MatchNumber(s, pos).value
  {
    DecimalLiteralShaped(s[pos..k]);
    DecimalNonEmpty(s[pos..k]);
    if k > pos + 1 {
      ShapedNotPrefixed(s, pos, k);
    }
    if PrefixRadix(s, pos).None? {
      DecimalAlternativesLongest(s, pos, k);
    }
  }

  // The scanner finds a `number` wherever one starts, and the one it finds is the longest.
  lemma NumberLongest(s: string, pos: nat, k: nat)
    requires pos <= k <= |s| && IsNumber(s[pos..k])
    ensures MatchNumber(s, pos).Some? && k <= pos + MatchNumber(s, pos).value
  {
    var u := s[pos..k];
    if IsHexLiteral(u) {
      PrefixedLongest(s, pos, k, Hex);
    } else if IsBinaryLiteral(u) {
      PrefixedLongest(s, pos, k, Bin);
    } else if IsOctalLiteral(u) {
      PrefixedLongest(s, pos, k, Oct);
    } else if IsBigintLiteral(u) {
      BigintLongest(s, pos, k);
    } else {
      DecimalLongest(s, pos, k);
    }
  }
}
