# A verified model of the madlib tree-sitter grammar

This project models the core of `grammar.js`, the tree-sitter grammar of the
madlib language, in Dafny. It covers two things. The first is the tokens the
grammar defines as regular expressions or token rules: numbers, escape
sequences, strings, comments, regex literals, JSX text, HTML character
references, JSX identifiers, identifiers and the reserved identifiers. The
second is how the `precedences` list and the operator table of
`binary_expression`, `unary_expression` and `ternary_expression` decide the
shape of an expression tree. The `commaSep1`/`commaSep` list helpers are
modelled as well.

Each token is modelled in three parts:

- a predicate `IsX`, which transcribes the grammar's rule alternative by
  alternative;
- a scanner `MatchX(s, pos)`, which gives the length of the token the lexer
  reads at `pos`, or `None`;
- lemmas linking the two. The scanner is sound: what it reads is an `X`. It
  takes the longest match: no longer prefix is an `X`. Where the token is
  self-delimiting, it is exact: it reads precisely the one `X` that starts
  there.

Where a rule has a natural second reading, the model gives it and proves the
two equal. A regex pattern is also a four-state automaton. A block comment is
also text that ends at its first `*/`. A JSX identifier is also "a start
character, one dash somewhere, and only word characters or dashes".

Precedence is modelled as a fold. An expression at one level is a `Chain`:
operands, each with its prefix of unary operators, and the binary operators
between them. `Fold` builds the tree the precedence rules allow: it splits at
the loosest operator, and among equals at the last one for left-associative
operators and the first one for right-associative ones. The model proves
three things about it:

- `Fold` gives back the chain it was given (`FoldFlatten`);
- the tree `Fold` builds is well-precedenced (`FoldWellPrec`);
- `Fold` builds the only well-precedenced tree for its chain (`FoldUnique`).

Together these mean that the table fixes the tree. The fold is generic over a
`Table` (a level and an associativity per operator). `Grammar` is the table
of `grammar.js`, and `GrammarConsistent` proves it is a valid instance.
Conditionals are a right fold of `cond ? consequence :` arms over a last
chain, with the same three theorems.

The grammar's character classes `\s` and `\p{Zs}` appear in the identifier
rule. They are a parameter `space: char -> bool` there. The other classes are
written out by hand.

## Model

| member | source | states |
|---|---|---|
| Numbers.IsNumber | grammar.js:760-806 | The `number` rule, alternative by alternative: a hex, binary or octal literal, a decimal literal, or a bigint literal, built from the `hexLiteral` to `decimalLiteral` pieces |
| Numbers.RunIsSeparatedDigits | grammar.js:761-769 | A digit run with `_` separators, as in `hexLiteral`, `decimalDigits`, `binaryLiteral` and `octalLiteral`, is exactly a non-empty text of digits of its radix and `_`, where every `_` sits between two digits |
| Numbers.MatchNumber | grammar.js:760-806 | A number the scanner reads is non-empty, fits in the input and starts with a decimal digit or a `.` |
| Numbers.MatchNumberSound | grammar.js:760-806 | What the number scanner reads is a `number`: hex, binary or octal literal, decimal literal or bigint literal |
| Numbers.NumberLongest | grammar.js:760-806 | No prefix of the input longer than the scanner's match is a `number` |
| Numbers.BigintLongest | grammar.js:771-774 | No bigint literal at the position is longer than the scanner's match |
| Numbers.DecimalLongest | grammar.js:785-795 | No decimal literal at the position is longer than the scanner's match |
| Numbers.NumberSeparators | grammar.js:760-806 | In every number, each `_` stands between two digits of the literal's radix |
| Numbers.IntegerFormAlphabet | grammar.js:761-783 | An integer form holds only digits of its radix and `_`, apart from a leading `0` and a radix letter at index 1 |
| Numbers.BigintIsInteger | grammar.js:771-774 | A bigint literal has no `.`, `-` or `+`, and no `e`/`E` unless it is hexadecimal |
| Numbers.SuffixMeansBigint | grammar.js:771-774 | A number ends in `n` exactly when it is a bigint literal |
| Numbers.FractionOrExponentIsNotBigint | grammar.js:785-795 | A number with a `.`, a `-` or a non-hex exponent letter is not a bigint and does not end in `n` |
| Numbers.ExponentShape | grammar.js:764-765 | An exponent part is `e` or `E`, an optional `-`, then a separated digit run that starts with a digit |
| Numbers.NumberSigns | grammar.js:760-806 | A number never holds `+`, and holds `-` only right after the exponent letter |
| Escapes.IsEscapeForm | grammar.js:692-697 | The six alternatives after the backslash: a single character other than `x`, `u` and octal digits, one to three octal digits, `x` and two hex digits, `u` and four hex digits, `u{` hex digits `}`, and a CR or `?` followed by a line terminator |
| Escapes.IsEscapeSequence | grammar.js:686-699 | `escape_sequence`: a backslash followed by one of the six forms |
| Escapes.EscapeFormUnique | grammar.js:686-699 | An escape body matches exactly one alternative of `escape_sequence` |
| Escapes.MatchEscape | grammar.js:686-699 | An escape the scanner reads starts with a backslash and is at least two characters long |
| Escapes.MatchEscapeSound | grammar.js:686-699 | What the escape scanner reads is an `escape_sequence` |
| Escapes.EscapeLongest | grammar.js:686-699 | No escape sequence at the position is longer than the scanner's match |
| Escapes.EscapeOverhang | grammar.js:692-697 | Beyond any shorter escape, the scanner's match adds only octal digits or the second character of a line continuation |
| Strings.IsString | grammar.js:651-684 | `string`: a double or single quote, any sequence of fragments (no own quote, backslash, CR or LF) and escape sequences, then the same quote |
| Strings.MatchString | grammar.js:651-684 | The length of the string literal that opens at the position: at least two, and within the input |
| Strings.MatchStringSound | grammar.js:651-684 | What the string scanner reads is a `string`: a quote, fragments and escapes, and the same quote |
| Strings.MatchStringComplete | grammar.js:651-684 | If a string starts at the position, the scanner reads exactly that string |
| Strings.ScanBodySound | grammar.js:651-684 | The body scanner stops just past a closing quote, and what it passed is a string body |
| Strings.ScanBodyComplete | grammar.js:651-684 | A string body followed by its quote is read up to and including that quote |
| Strings.QuoteOnlyEscaped | grammar.js:651-699 | Inside a string body, the string's own quote appears only as the second character of an escape `\q` |
| Strings.QuoteInPiece | grammar.js:680-697 | A piece of a string body holds the quote only as the escape `\q` |
| Strings.EscapeHoldsNoQuote | grammar.js:686-699 | A quote inside an escape sequence can only be its second character |
| Strings.EscapedQuoteExample | grammar.js:651-699 | `"ab\"cd"` is one string made of the fragment `ab`, the escape, and the fragment `cd`, and none of its shorter prefixes is a string |
| Comments.IsLineComment | grammar.js:706 | A line comment: `//` and then no CR, LF, U+2028 or U+2029 |
| Comments.IsBlockComment | grammar.js:707 | A block comment: `/*`, the body regex `[^*]*\*+([^/*][^*]*\*+)*`, then `/` |
| Comments.IsComment | grammar.js:702-710 | `comment`: a line comment or a block comment |
| Comments.MatchComment | grammar.js:702-710 | The length of the comment that opens at the position: at least two, and within the input |
| Comments.BlockBodyIff | grammar.js:707 | The body rule of a block comment accepts exactly the texts that end with a star and contain no `*/` |
| Comments.BlockCommentIff | grammar.js:707 | A block comment is `/*`, text, `*/`, and it closes at its first `*/` |
| Comments.FindCloseFirst | grammar.js:707 | The search for the closing `*/` stops at the first one |
| Comments.MatchCommentSound | grammar.js:702-710 | What the comment scanner reads is a `comment` |
| Comments.LineCommentLongest | grammar.js:706 | No line comment at the position is longer than the scanner's match |
| Comments.BlockCommentExact | grammar.js:707 | If a block comment starts at the position, the scanner reads exactly that comment |
| Comments.CommentLongest | grammar.js:702-710 | No comment at the position is longer than the scanner's match |
| Comments.LineCommentOneLine | grammar.js:706 | A line comment holds no line terminator |
| Regex.IsPattern | grammar.js:735-756 | `regex_pattern`: one or more items, each a bracketed class, an escaped character other than LF, or a character other than `/`, backslash, `[` and LF |
| Regex.IsRegex | grammar.js:727-758 | `regex`: a slash, a pattern, a slash, and optionally one or more lower-case flag letters |
| Regex.ClassBracketEscaped | grammar.js:741-749 | Inside a class body, a `]` only ever stands as the second character of an escaped pair |
| Regex.ClassEndSound | grammar.js:741-749 | The class scanner stops just past a `]`, and what it passed is a class body |
| Regex.ClassEndComplete | grammar.js:741-749 | A class body followed by `]` is read up to and including that `]` |
| Regex.PatternEndSound | grammar.js:735-756 | What the pattern scanner passes is a sequence of pattern items |
| Regex.PatternLongest | grammar.js:735-756 | No run of pattern items at the position is longer than the pattern scanner's match |
| Regex.PatternIff | grammar.js:735-756 | A `regex_pattern` is exactly a non-empty text the four-state automaton accepts. The automaton rejects LF. It rejects a slash outside a class unless escaped. It ends with every class closed and no backslash pending |
| Regex.PatternNoNewline | grammar.js:735-756 | A regex pattern holds no LF |
| Regex.PatternSlashGuarded | grammar.js:735-756 | Before any slash inside a pattern, the automaton stands inside a class or after a backslash, never in plain mode |
| Regex.MatchRegex | grammar.js:727-758 | The length of the regex that opens at the slash at the position: at least three, and within the input |
| Regex.MatchRegexSound | grammar.js:727-758 | What the regex scanner reads is a `regex`: slash, pattern, slash, optional lower-case flags |
| Regex.RegexLongest | grammar.js:727-758 | No regex at the position is longer than the scanner's match |
| Jsx.IsJsxText | grammar.js:351-352 | `jsx_text`: either a run of characters other than `{}<>&` and LF that neither starts nor ends with a space, or `//` and the rest of the line |
| Jsx.MatchJsxText | grammar.js:351-352 | The length of the JSX text that starts at the position: at least one, and within the input |
| Jsx.JsxTextOneLine | grammar.js:351-352 | JSX text holds no LF |
| Jsx.PlainJsxTextIff | grammar.js:351-352 | The first alternative of `jsx_text` is exactly a non-empty run of characters other than `{}<>&` and LF, without a space at either end |
| Jsx.MatchJsxTextSound | grammar.js:351-352 | What the JSX text scanner reads is `jsx_text` |
| Jsx.JsxTextLongest | grammar.js:351-352 | No JSX text at the position is longer than the scanner's match |
| Jsx.IsCharacterReference | grammar.js:357-358 | `html_character_reference`: `&`, then `#x` or `#X` and 1 to 6 hex digits, `#` and 1 to 5 decimal digits, or 1 to 30 ASCII letters, then `;` |
| Jsx.MatchCharacterReference | grammar.js:357-358 | The length of the character reference that starts at the position: at least three, and within the input |
| Jsx.CharacterReferenceShape | grammar.js:357-358 | A character reference is 3 to 32 characters long, has `&` only first and `;` only last |
| Jsx.MatchCharacterReferenceSound | grammar.js:357-358 | What the reference scanner reads is an `html_character_reference` |
| Jsx.CharacterReferenceExact | grammar.js:357-358 | If a character reference starts at the position, the scanner reads exactly it |
| Jsx.HexReferenceExact | grammar.js:358 | A hexadecimal reference `&#x` with 1 to 6 hex digits and `;` is read exactly |
| Jsx.DecimalReferenceExact | grammar.js:358 | A decimal reference `&#` with 1 to 5 digits and `;` is read exactly |
| Jsx.NamedReferenceExact | grammar.js:358 | A named reference `&` with 1 to 30 letters and `;` is read exactly |
| Jsx.IsJsxIdentifier | grammar.js:390 | `jsx_identifier`: a letter, `_` or `$`, then word characters, a dash, then word characters and dashes |
| Jsx.MatchJsxIdentifier | grammar.js:390 | The length of the JSX identifier that starts at the position: at least two, and within the input |
| Jsx.JsxIdentifierIff | grammar.js:390 | A JSX identifier is exactly a start character, then word characters and dashes, with at least one dash |
| Jsx.MatchJsxIdentifierSound | grammar.js:390 | What the JSX identifier scanner reads is a `jsx_identifier` |
| Jsx.JsxIdentifierLongest | grammar.js:390 | No JSX identifier at the position is longer than the scanner's match |
| Identifiers.IsIdentifier | grammar.js:808-816 | `identifier`: one `alpha` unit, then any number of `alphanumeric` units; a unit is one character outside the banned set, or a `\u` escape |
| Identifiers.IsReservedIdentifier | grammar.js:873 | `_reserved_identifier`: exactly `export`, `import` or `where` |
| Identifiers.IsUnicodeEscape | grammar.js:810-814 | The `\u` escape of an identifier unit is a backslash followed by the four-digit or the braced `u` form of `escape_sequence` |
| Identifiers.UnicodeEscapeForms | grammar.js:810-814 | That escape is exactly `\u` and four hex digits, or `\u{`, one or more hex digits and `}` |
| Identifiers.MatchIdentifier | grammar.js:808-816 | The length of the identifier that starts at the position: at least one, and within the input |
| Identifiers.EscapeEndSound | grammar.js:808-816 | What the `\u` escape scanner reads is a unicode escape, in either the four-digit or the braced form |
| Identifiers.EscapeEndExact | grammar.js:808-816 | A unicode escape at the position is read exactly |
| Identifiers.MatchIdentifierSound | grammar.js:808-816 | What the identifier scanner reads is an `identifier` |
| Identifiers.IdentifierLongest | grammar.js:808-816 | No identifier at the position is longer than the scanner's match |
| Identifiers.IdentifierNotDigitFirst | grammar.js:810-811 | An identifier is non-empty and does not start with a decimal digit |
| Identifiers.PlainIdentifierIff | grammar.js:808-816 | Without backslashes, an identifier is exactly an alpha character followed by alphanumeric characters |
| Identifiers.ReservedAreIdentifiers | grammar.js:873 | `export`, `import` and `where` are identifiers too, so the grammar must reserve them by name |
| Precedence.Level | grammar.js:53-73 | The position of each name in the first `precedences` list, from `member` (0) to `arrow_function` (17) |
| Precedence.LevelIsPosition | grammar.js:53-73 | The level of each precedence name is its one position in the `precedences` list |
| Precedence.Symbol | grammar.js:603-622 | The token of each of the twenty binary operators, as the table writes it |
| Precedence.PrecOf | grammar.js:603-622 | The precedence name each operator's row gives it |
| Precedence.AssocOf | grammar.js:603-627 | Right associativity for the one row marked `right` (`**`), left for every other row |
| Precedence.SymbolInjective | grammar.js:603-622 | Distinct binary operators have distinct tokens |
| Precedence.OnlyPowRight | grammar.js:603-625 | `**` is the only right-associative binary operator |
| Precedence.SameLevelSameAssoc | grammar.js:603-625 | Operators at one level share an associativity |
| Precedence.GroupLevels | grammar.js:603-622 | `*`, `/` and `%` share a level, as do `+` and `-`, and `==` and `!=` |
| Precedence.ShiftRelationLevels | grammar.js:603-622 | The three shifts share a level, and the four relations share a level |
| Precedence.ArithmeticOrder | grammar.js:53-73 | `**` binds tighter than `*`, which beats `+`, then shifts, then relations, then equality |
| Precedence.BitwiseLogicalOrder | grammar.js:53-73 | Equality binds tighter than bitwise and, which beats bitwise xor, then bitwise or, then logical and, then logical or |
| Precedence.CompareUnused | grammar.js:53-73 | No binary operator uses the `binary_compare` level |
| Precedence.UnaryAndTernaryBounds | grammar.js:53-73 | Every binary operator binds looser than unary operators and tighter than the conditional |
| Precedence.GrammarConsistent | grammar.js:603-625 | The grammar's table is consistent: operators at one level share an associativity |
| Precedence.WellPrec | grammar.js:589-643 | A tree obeys the precedence rules: a unary argument is an atom or a unary; a binary child is tighter, or equally tight on the side its associativity allows, and never a conditional; a condition is not itself a conditional |
| Precedence.Fold | grammar.js:601-643 | Builds the tree for a chain by splitting at its loosest operator, the last among equals when left-associative and the first when right-associative; the result is a binary node exactly when the chain has an operator |
| Precedence.FoldFlatten | grammar.js:601-643 | Flattening the tree the fold builds gives back its operands and operators in order |
| Precedence.FoldWellPrec | grammar.js:601-643 | The fold builds a tree that obeys the precedence and associativity rules |
| Precedence.FoldUnique | grammar.js:601-643 | Every tree that obeys the rules is the fold of its own flattening, so each chain has exactly one allowed tree |
| Precedence.SplitIndexLoosest | grammar.js:601-634 | The root of a chain is at its loosest operator: the last one among equals for left associativity, the first for right |
| Precedence.SplitIndexUnique | grammar.js:601-634 | Only one position of a chain can be its root |
| Precedence.ThreeOperands | grammar.js:601-634 | `a op1 b op2 c` nests to the left exactly when `op1` binds tighter, or equally and left-associatively |
| Precedence.TimesTighterThanPlus | grammar.js:603-622 | `a + b * c` is `a + (b * c)`, and `a * b + c` is `(a * b) + c` |
| Precedence.MinusLeftPowRight | grammar.js:603-625 | `a - b - c` is `(a - b) - c`, and `a ** b ** c` is `a ** (b ** c)` |
| Precedence.UnaryBindsTighter | grammar.js:636-643 | `-a op b` is `(-a) op b` for every binary operator |
| Precedence.FoldTernary | grammar.js:589-599 | Nests `cond ? consequence :` arms to the right over the last chain, as `prec.right` does; the result is a conditional exactly when there is an arm |
| Precedence.FoldTernaryFlatten | grammar.js:589-599 | Flattening the conditional the fold builds gives back its arms and last chain |
| Precedence.FoldTernaryWellPrec | grammar.js:589-599 | The conditional fold builds a tree that obeys the precedence rules |
| Precedence.FoldTernaryUnique | grammar.js:589-599 | Every well-precedenced tree is the conditional fold of its own flattening |
| Precedence.TernaryExamples | grammar.js:589-599 | `a ? b : c ? d : e` nests to the right, and `a + b ? c : d` has `a + b` as its condition |
| CommaSep.IsCommaSep1 | grammar.js:885-887 | `commaSep1(rule)`: one item, or one item, a separator and again a `commaSep1`; the exact recognizer |
| CommaSep.IsCommaSep | grammar.js:897-899 | `commaSep(rule)`: the empty text or a `commaSep1` |
| CommaSep.JoinIsCommaSep1 | grammar.js:885-887 | Any one or more items joined by commas form a `commaSep1` |
| CommaSep.CommaSep1Items | grammar.js:885-887 | Every `commaSep1` is one or more items joined by commas |
| CommaSep.SplitJoin | grammar.js:885-887 | Cutting a text at its commas and joining the pieces again gives the text back, and no piece holds a comma |
| CommaSep.JoinSplit | grammar.js:885-887 | Joining comma-free items and cutting at commas gives back the items |
| CommaSep.CommaSepIff | grammar.js:885-899 | `commaSep` is exactly the empty text or one or more items joined by the separator |
| CommaSep.MatchCommaSep1 | grammar.js:885-887 | The cut-based matcher: every piece between separators is an item |
| CommaSep.MatchCommaSep1Sound | grammar.js:885-887 | What the comma-list matcher accepts is a `commaSep1` |
| CommaSep.MatchCommaSep1Complete | grammar.js:885-899 | When no item can hold a comma, the matcher accepts every `commaSep1` |
| CommaSep.SeparatorInItem | grammar.js:885-887 | When an item can hold a comma, the matcher rejects some `commaSep1` |

## Left out

- External tokens are not part of this model. The grammar hands
  `escape_sequence`, `regex_pattern`, `||`, `_ternary_qmark` and the other
  externals to a C scanner. The model reads `escape_sequence` and
  `regex_pattern` by their rules in `grammar.js`. It treats `?` as a plain
  token. The C scanner is not part of this model.
- Extras between the pieces of a string or a regex are not modelled: each is
  read as one contiguous lexeme.
- `.` in the grammar's regular expressions is read as any character but LF,
  as in tree-sitter's regex dialect.
- The identifier rule's Unicode classes `\s` and `\p{Zs}` are the parameter
  `space`, because the Unicode tables are out of scope. The rest of its banned
  set (control characters, ASCII punctuation, five format characters) is
  written out.
- Tree-sitter's conflict resolution is not modelled: the `conflicts` list,
  dynamic precedence and the GLR fork. The model states what the
  precedence rules allow, not how the parser reaches it.
- The second and third `precedences` lists are not modelled (`assign`,
  `member`, `new` and `call`). Neither are parentheses and the expression
  forms beyond unary, binary and conditional. An atom stands for any primary
  expression.
- `sequence_expression` and `arrow_function` levels appear in the precedence
  list (and `LevelIsPosition`) but their rules are not modelled.
- Literal values are not computed: number values, escape decoding and the
  code points of character references.
- The parser's choice between a regex and a division is made by context; the
  model only says what each token is once chosen.
- Editor tooling (queries, highlighting, node types) is out of scope.
- CommaSep.MatchCommaSep1Complete: it holds only when no item can contain the
  separator, because the matcher cuts at every separator; `SeparatorInItem`
  shows the gap.
- The grammar's comments next to `jsx_text` say only "no new lines, no space
  at either end". The code also excludes `{`, `}`, `<`, `>` and `&`, and has a
  second `//` alternative; the model follows the code.
- String fragments also exclude CR and LF, besides the quote and the
  backslash. That follows the code on lines 680-684.
- The `binary_compare` level is listed in `precedences` but no operator uses
  it (`CompareUnused`).
