# tree-sitter bash grammar: operator groupings and token shapes

This project models the core of `grammar.js`, the tree-sitter grammar for
bash (shipped in a zsh-flavoured repository), and proves properties about it.
Two parts of the grammar are pure data about the language:

* **Operator groupings.** Three operator sublanguages are modelled.
  * Arithmetic inside `(( ))` uses `binary_arithmetic_expression`,
    `ternary_arithmetic_expression`, `unary_arithmetic_expression` and
    `parenthesized_arithmetic_expression`.
  * Test expressions inside `[ ]` and `[[ ]]` use `binary_expression`,
    `unary_expression` and `parenthesized_expression`.
  * Statements are joined by `pipeline` (`|`, `|&`) and `list`
    (`&&`, `||`).

  Each alternative gets a level in the grammar through `prec`, and an
  associativity through `prec.left` or `prec.right`. The generated parser
  uses these numbers to resolve its shift/reduce conflicts.

  `Operators` holds the three tables:
  * every level as the grammar writes it;
  * level 0 where only `prec.left` or `prec.right` is given.

  `Precedence` is a parser that groups tokens by such a table. It is
  generic over any valid table and is proved sound and complete against
  `WellGrouped`, a declarative description of the trees the levels allow:
  * the parser returns only well-grouped trees whose tokens are its input;
  * it reads back every well-grouped tree from its tokens;
  * so every token sequence has at most one grouping.

  `Grouping` draws out what the grammar's numbers mean: which operator binds
  tighter, how operators of one level associate, where the conditional and
  the prefix operators sit, and how pipelines nest in lists.
* **Token shapes.** `CharClasses` models the `SPECIAL_CHARACTERS` table and
  the `noneOf` helper as text. `noneOf` joins the entries into `[^...]` and
  doubles a lone backslash. The module reads the resulting pattern back as a
  class and proves which characters it excludes. `Tokens` gives the regular
  expression of each terminal token as a predicate, with lemmas about its
  shape. The terminals are `word`, `number`, `raw_string`, `ansii_c_string`,
  `test_operator`, `comment`, `_terminator`, the variable names of
  `simple_expansion` and the extra `\\?\s`.

Modules: `Wrappers` (Option), `CharClasses`, `Tokens`, `Operators`,
`Precedence`, `Grouping`.

## Where the grammar's numbers differ from shell convention

The model follows what `grammar.js` writes, and four groupings come out
differently from the C or bash manual order:

* `^` has level 9 and `&` level 8, so `^` binds tighter than `&`. In C, `&`
  binds tighter than `^`. See `Grouping.ArithXorAboveAnd`.
* `=` and the compound assignments sit inside one `prec.left`, so they group
  to the left. There is no right-associative assignment. See
  `Grouping.ArithAssignLeftAssociative`.
* In tests, `prec(4, ...)` on `==` and `=~` is inside `token(...)`. That
  level orders tokens for the lexer only, so the parse alternative has level
  0, looser than `||`. `a == b && c` groups as `a == (b && c)`; see
  `Grouping.TestDoubleEqualsLoosest`.
* `!` in a test is `prec.right` with no number, level 0. It takes a whole
  conjunction as its operand, so `! a && b` is `!(a && b)`; see
  `Grouping.TestNotTakesConjunction`. It does not bind tighter than the
  binary tests.

## Model

| member | source | states |
|---|---|---|
| CharClasses.SpecialCharacters | grammar.js:1-12 | defines the table's 18 entries as the grammar writes them, as pattern fragments |
| CharClasses.IsWhitespace | grammar.js:10 | defines the characters of the `\s` class: the six ASCII separators |
| CharClasses.IsSpecialChar | grammar.js:1-12 | defines the characters the table lists once read as a class: the 17 literal characters, with `\[` and `\]` as brackets |
| CharClasses.EscapeEntry | grammar.js:559 | defines the escaping of one entry: a lone backslash becomes `\\`, any other entry is kept |
| CharClasses.Join | grammar.js:559 | defines `.join('')`: the entries written one after another |
| CharClasses.NoneOf | grammar.js:558-561 | defines the pattern text `noneOf` builds: `[^`, the escaped and joined entries, `]` |
| CharClasses.IsEscapableMeta | grammar.js:560 | defines the metacharacters a backslash may escape inside the class, each then standing for itself |
| CharClasses.ParseClassBody | grammar.js:560 | defines how the body of a bracketed class reads as items: a literal character, `\s` for whitespace, or an escaped metacharacter standing for itself; any other escape and an unescaped `[`, `]` or `-` are refused |
| CharClasses.NegatedClassMatches | grammar.js:560 | defines which characters a `[^...]` pattern matches: those no item of its body matches |
| CharClasses.EscapeAll | grammar.js:559 | every entry is escaped on its own, and a lone backslash becomes two |
| CharClasses.EntryItems | grammar.js:558-561 | one class item per table entry, in table order |
| CharClasses.EscapedJoinReads | grammar.js:558-561 | joining the escaped entries and reading the text back as a class body gives one item per entry and leaves what follows untouched |
| CharClasses.EntryReads | grammar.js:559 | one escaped entry reads back as exactly its own item |
| CharClasses.NoneOfItems | grammar.js:558-561 | `noneOf` of well-formed entries is a negated class with exactly the entries' items |
| CharClasses.SpecialClassItems | grammar.js:1-12 | every entry of the table is well formed, and the class lists the 18 items in table order: `\[` `\]` become brackets and `\s` becomes the whitespace class |
| CharClasses.WordClassMeaning | grammar.js:1-12 | the class `noneOf(...SPECIAL_CHARACTERS)` matches a character exactly when it is neither whitespace nor a listed character (both directions) |
| CharClasses.NonSpaceClassMeaning | grammar.js:549 | `noneOf('\\s')` matches exactly the characters that are not whitespace |
| CharClasses.BackslashDoublingNeeded | grammar.js:9-10 | with the doubling, the lone backslash and the next entry `\s` read as a backslash and whitespace; without it, they would read as a backslash and the letter `s` |
| Tokens.WordChar | grammar.js:548 | defines a character a word may hold outright: neither whitespace nor listed in the table |
| Tokens.EscapableChar | grammar.js:549 | defines a character a backslash may escape in a word: any but whitespace |
| Tokens.WordUnits | grammar.js:547-550 | defines the `repeat(choice(...))` of a word: plain word characters and backslash escapes, one after another |
| Tokens.IsWord | grammar.js:547-550 | defines the `word` token: one or more word units (`repeat1`) |
| Tokens.WordCharIsTableClass | grammar.js:548 | a plain word character is exactly one that the table's class matches |
| Tokens.EscapableCharIsClass | grammar.js:549 | a backslash in a word may escape exactly the characters `noneOf('\\s')` matches |
| Tokens.WordUnitsHaveNoWhitespace | grammar.js:547-550 | no run of word units holds a whitespace character, escaped or not |
| Tokens.WordHasNoWhitespace | grammar.js:547-550 | a word never contains whitespace, so whitespace always separates words |
| Tokens.WordUnitsAppend | grammar.js:547-550 | word-unit runs are closed under concatenation (`repeat1`) |
| Tokens.WordConcat | grammar.js:547-550 | two words written together form one word |
| Tokens.PlainWordUnits | grammar.js:547-548 | text without backslashes is a run of word units exactly when none of its characters is whitespace or special (both directions) |
| Tokens.EscapedWord | grammar.js:549 | `\c` is a word exactly when `c` is not whitespace, so a backslash turns even a special character into a word |
| Tokens.ValidNumber | grammar.js:487 | defines a well-formed literal: one or more decimal digits, and after `#` one or more of `[0-9A-Za-z@_]` |
| Tokens.RenderNumber | grammar.js:487 | defines the text of a literal: optional `0x`, the digits, optional `#` and its part |
| Tokens.ParseNumber | grammar.js:487 | defines reading `(0x)?[0-9]+(#[0-9A-Za-z@_]+)?` over a whole text |
| Tokens.ParseDigitsAndSuffix | grammar.js:487 | defines reading `[0-9]+(#[0-9A-Za-z@_]+)?` over a whole text |
| Tokens.IsNumber | grammar.js:487 | defines the `number` token: a text `ParseNumber` reads |
| Tokens.DigitRun | grammar.js:487 | the length of the longest run of leading decimal digits |
| Tokens.ParseDigitsAndSuffixSound | grammar.js:487 | reading digits and an optional `#` part gives a valid literal whose text is the input |
| Tokens.ParseNumberSound | grammar.js:487 | a text read as a `number` gives a valid literal that renders back to the text |
| Tokens.ParseRenderDigitsAndSuffix | grammar.js:487 | a valid literal's digits and optional `#` part read back as the literal |
| Tokens.NoHexMarker | grammar.js:487 | without `0x`, a literal's second character is a digit or `#`, never `x` |
| Tokens.ParseRenderNumber | grammar.js:487 | every valid literal is read back from its own text (round trip) |
| Tokens.DigitRunOf | grammar.js:487 | when digits are followed by a non-digit, their digit run ends there |
| Tokens.NumberShape | grammar.js:487 | a text is a `number` exactly when it renders some valid `(0x)?digits(#base-digits)?` literal (both directions) |
| Tokens.IsRawString | grammar.js:483 | defines `'[^']*'`: quotes around a body without quotes |
| Tokens.AnsiBody | grammar.js:485 | defines `([^']\|\\')*`: units that are a non-quote character or a backslash and a quote |
| Tokens.IsAnsiCString | grammar.js:485 | defines `ansii_c_string`: `$'`, a body, and a closing quote |
| Tokens.RawStringBody | grammar.js:483 | quotes around a body make a `raw_string` exactly when the body has no quote |
| Tokens.RawStringEndsAtFirstQuote | grammar.js:483 | no raw string is a proper prefix of another |
| Tokens.AnsiBodyIff | grammar.js:485 | a text is a body of `([^']\|\\')*` exactly when each of its quotes follows a backslash (both directions) |
| Tokens.AnsiCStringShape | grammar.js:485 | an `ansii_c_string` is `$'`, then a body whose quotes are all escaped, then `'` |
| Tokens.IsTestOperator | grammar.js:552 | defines `test_operator`: `-` followed by one or more ASCII letters |
| Tokens.DashLettersAreWords | grammar.js:552 | every `test_operator` is also a `word` |
| Tokens.DashKeywordsAreTestOperators | grammar.js:352-363 | each dash keyword of the binary tests (`-o` `-a` `-eq` … `-ge`) matches `test_operator` and is a word |
| Tokens.IsComment | grammar.js:541 | defines `#.*` as a whole token: a `#` and characters other than a newline |
| Tokens.LineLength | grammar.js:541 | the length of the text before the first newline |
| Tokens.CommentExtent | grammar.js:541 | the longest comment at the front of a text ends just before the first newline |
| Tokens.IsTerminator | grammar.js:554 | defines `_terminator`: `;`, `;;`, a newline or `&` |
| Tokens.TerminatorIsNoWord | grammar.js:554 | no `_terminator` (`;`, `;;`, newline, `&`) is a word |
| Tokens.IsSimpleVariableName | grammar.js:543 | defines `\w+`: one or more ASCII letters, digits or underscores |
| Tokens.IsSpecialVariableName | grammar.js:545 | defines the seven special names `*` `@` `?` `-` `$` `0` `_` |
| Tokens.IsExpansionName | grammar.js:489-497 | defines the name after `$` in `simple_expansion`: a simple name, a special name, `!` or `#` |
| Tokens.ExpansionNames | grammar.js:489-497 | a text is an expansion name exactly when it is a `\w+` name or one of the seven characters `*` `@` `?` `-` `$` `!` `#` (both directions); a name that is not `\w+` is one such non-word character |
| Tokens.SpecialAndSimpleNames | grammar.js:543-545 | exactly `0` and `_` are both a special and a simple variable name |
| Tokens.IsSpaceTrivia | grammar.js:47 | defines the extra `\\?\s`: a whitespace character, possibly after a backslash |
| Tokens.IsTrivia | grammar.js:45-48 | defines the extras: a whitespace unit or a comment |
| Tokens.TriviaIsNoWord | grammar.js:45-48 | no extra (escaped whitespace or comment) is a word |
| Operators.ArithBinary | grammar.js:394-408 | every binary arithmetic operator has a level within the table's range and associates to the left; the levels' effect is stated by the `Grouping` lemmas |
| Operators.TestBinary | grammar.js:351-365 | every binary test operator has a level within range and associates to the left (`==` and `=~` sit at 0; see `Grouping.TestDoubleEqualsLoosest`) |
| Operators.StmtBinary | grammar.js:222-232 | the pipeline and list operators have levels within range and associate to the left |
| Operators.BinaryOp | grammar.js:222-416 | in every sublanguage (statement operators at 222-232, test operators at 351-370, arithmetic operators at 394-416) a binary operator has a level within range and associates to the left |
| Operators.PrefixOp | grammar.js:367-370 | every prefix operator (`test_operator` and `!` here; the arithmetic ones on lines 414-416) has a level within range |
| Operators.TernaryOp | grammar.js:410-412 | the conditional, where it exists, has a level within range and associates to the right |
| Operators.TableOf | grammar.js:222-416 | defines the table each sublanguage's parser consults (statement 222-232, test 351-370, arithmetic 394-416), built from the binary, prefix and conditional tables |
| Operators.TableAssociativity | grammar.js:222-416 | over the statement (222-232), test (351-370) and arithmetic (394-416) tables: in each table of the grammar, binary operators are left-associative and the conditional is right-associative |
| Precedence.Flatten | grammar.js:380-416 | defines the tokens of a tree in order: operands, operators, `?` `:` of a conditional, and the parentheses of a group |
| Precedence.WellGrouped | grammar.js:222-416 | over the statement (222-232), test (351-370) and arithmetic (394-416) tables: defines the trees the levels and associativities produce without parentheses, the reference the parser is proved against |
| Precedence.LeftEdge | grammar.js:222-416 | over the statement (222-232), test (351-370) and arithmetic (394-416) tables: the loosest level on a tree's left spine, within bounds |
| Precedence.RightBound | grammar.js:222-416 | over the statement (222-232), test (351-370) and arithmetic (394-416) tables: the tightest operand bound on a tree's right spine, within bounds |
| Precedence.NextLevel | grammar.js:222-416 | over the statement (222-232), test (351-370) and arithmetic (394-416) tables: the level of the infix operator at the front, or none; a level means a known binary operator or `?` |
| Precedence.ParsePrefix | grammar.js:367-376 | an operand with its prefix operators or parentheses: well grouped, consumes a prefix of the input, and its tokens are that prefix |
| Precedence.ParseExpr | grammar.js:222-416 | over the statement (222-232), test (351-370) and arithmetic (394-416) tables: reads a well-grouped tree at a bound; its tokens are a prefix of the input; every operator on its left spine meets the bound; the next operator fits neither the bound nor the tree's right spine |
| Precedence.ParseInfix | grammar.js:394-408 | extends a tree with the infix operators that meet the bound, and keeps the same properties |
| Precedence.ParseConditional | grammar.js:410-412 | `c ? t : f`: the middle is read unbounded up to `:` and the last operand at the conditional's bound; the result keeps the same properties |
| Precedence.ParseBinary | grammar.js:394-408 | `l op r`: the right operand is read at the operator's bound; the result keeps the same properties |
| Precedence.ConditionalTokens | grammar.js:411 | the tokens of `c ? t : f` are those of its parts with `?` and `:` between |
| Precedence.Parse | grammar.js:222-416 | for the statement, test and arithmetic sublanguages (222-232, 351-370, 394-416), a successful parse is a well-grouped tree whose tokens are exactly the input (soundness) |
| Precedence.ParseExprFlatten | grammar.js:222-416 | over the statement (222-232), test (351-370) and arithmetic (394-416) tables: reading a well-grouped tree's tokens, followed by tokens it would not take in, gives that tree and continues as the infix loop does |
| Precedence.ParseExprExact | grammar.js:222-416 | over the statement (222-232), test (351-370) and arithmetic (394-416) tables: when what follows binds below the bound, reading a tree's tokens gives exactly the tree and the rest |
| Precedence.GroupTokens | grammar.js:388-392 | a parenthesised tree reads back as itself |
| Precedence.UnaryTokens | grammar.js:414-416 | a prefix application reads back as itself |
| Precedence.BinaryTokens | grammar.js:394-408 | a binary node reads back as itself |
| Precedence.TernaryTokens | grammar.js:410-412 | a conditional reads back as itself |
| Precedence.ConditionalStep | grammar.js:410-412 | after the condition, the middle stops at `:` and the last operand stops where the tree does |
| Precedence.ParseComplete | grammar.js:222-416 | over the statement (222-232), test (351-370) and arithmetic (394-416) tables: every well-grouped tree is read back from its own tokens (round trip) |
| Precedence.GroupingUnique | grammar.js:222-416 | over the statement (222-232), test (351-370) and arithmetic (394-416) tables: two well-grouped trees with the same tokens are equal: the levels leave no choice |
| Precedence.ParseIff | grammar.js:222-416 | over the statement (222-232), test (351-370) and arithmetic (394-416) tables: `Parse(ts) == Some(e)` exactly when `e` is well grouped and its tokens are `ts` (both directions) |
| Grouping.OperandLevels | grammar.js:394-408 | in a well-grouped binary node, a binary left operand is no looser than the node and a binary right operand is strictly tighter (left associativity); a conditional operand occurs only below an operator looser than `?:` |
| Grouping.ConditionalOperandLevels | grammar.js:410-412 | a condition is tighter than `?:` and is never itself a conditional; the last operand is no looser than `?:` |
| Grouping.ArithUnaryOperand | grammar.js:414-416 | an arithmetic prefix operator applies to an operand without a binary or ternary operator at its top |
| Grouping.TestUnaryOperand | grammar.js:367-370 | a `test_operator` applies to an operand without a binary operator at its top |
| Grouping.NotIsNeverLeftOperand | grammar.js:369 | `! x` is never the left operand of a binary test |
| Grouping.ThreeOperands | grammar.js:394-408 | `a o1 b o2 c` groups around the tighter operator, and to the left when the levels are equal |
| Grouping.BinaryBeforeConditional | grammar.js:394-412 | `a op b ? c : d` nests the conditional inside `op` exactly when `op` is looser than `?:` |
| Grouping.ConditionalBeforeBinary | grammar.js:394-412 | `a ? b : c op d` takes `c op d` as the last operand exactly when `op` is no looser than `?:` |
| Grouping.ArithMulOverAdd | grammar.js:406-407 | `a + b * c` is `a + (b * c)` |
| Grouping.ArithXorAboveAnd | grammar.js:400-402 | `a \| b ^ c` is `a \| (b ^ c)` and `a ^ b & c` is `(a ^ b) & c` |
| Grouping.ArithLeftAssociative | grammar.js:406 | `a - b + c` is `(a - b) + c` |
| Grouping.ArithAssignLeftAssociative | grammar.js:397 | `a = b = c` is `(a = b) = c` |
| Grouping.ArithCommaLoosest | grammar.js:395-396 | `a , b += c` is `a , (b += c)` |
| Grouping.ConditionalRightAssociative | grammar.js:410-412 | `a ? b : c ? d : e` is `a ? b : (c ? d : e)` |
| Grouping.ConditionalBelowOr | grammar.js:398 | `a \|\| b ? c : d` is `(a \|\| b) ? c : d`, and `a ? b : c \|\| d` is `a ? b : (c \|\| d)` |
| Grouping.ConditionalAboveAssign | grammar.js:397 | `a = b ? c : d` is `a = (b ? c : d)`, and `a ? b : c = d` is `(a ? b : c) = d` |
| Grouping.ArithUnaryTightest | grammar.js:414-416 | `- a * b` is `(- a) * b` |
| Grouping.GroupIsOperand | grammar.js:388-392 | `( a o1 b ) o2 c` keeps the parenthesised operation as the left operand, whatever the levels |
| Grouping.ArithParentheses | grammar.js:388-392 | `( a + b ) * c` is the product of the group and `c` |
| Grouping.TestUnaryOperators | grammar.js:368 | `-f x && -d y` is `(-f x) && (-d y)` |
| Grouping.TestAndOverOr | grammar.js:352-353 | `\|\|` and `-o` are looser than `&&` and `-a` |
| Grouping.TestRelationalOverEquality | grammar.js:354-363 | `a = b -lt c` is `a = (b -lt c)` |
| Grouping.TestDoubleEqualsLoosest | grammar.js:364 | `a == b && c` is `a == (b && c)` |
| Grouping.TestNotRightAssociative | grammar.js:369 | `! ! x` is `!(! x)` |
| Grouping.TestNotTakesConjunction | grammar.js:369 | `! a && b` is `!(a && b)` |
| Grouping.ListLeftToRight | grammar.js:228-232 | `&&` and `\|\|` in a list share one level and group to the left |
| Grouping.PipelineInsideList | grammar.js:222-232 | a pipeline binds tighter than a list on either side |
| Grouping.PipelineLeftAssociative | grammar.js:222-226 | `a \| b \|& c` is `(a \| b) \|& c` |

## Left out

- The external scanner (heredocs, `file_descriptor`, `_concat`, `variable_name`, `regex`, the `}` `]` `<<` `<<-` newline tokens) is C code, and that code is not part of this model.
- tree-sitter's own machinery (`inline`, the `word` keyword-extraction setting, LR table generation, error recovery) is not modelled. The grouping a level produces is modelled by `Precedence` directly.
- `prec(20, ',')` at grammar.js:395 is a precedence on the `,` step of the rule. It is not modelled. tree-sitter compares a shift against a reduce by the precedence of the step before the shift, so the comma's own number changes no grouping. The comma groups by the level 1 of its alternative (`Grouping.ArithCommaLoosest`).
- Lexical precedence inside `token(prec(...))` (`comment` at -10, `test_operator` at 1, the level 4 of `==`/`=~`) orders competing tokens in the lexer. It is not modelled, beyond noting that it gives no parse level.
- The regex operand after `=~` / `==` (`prec(1, $.regex)`) is not modelled. It comes from the external scanner, so those operators take an ordinary operand here.
- Precedence.ParsePrefix: a parenthesis in `Stmt` is read as a group of one expression. A real `subshell` holds `_statements` with terminators, which are not modelled.
- The rest of the grammar (commands, redirections, `case_item`, function definitions, expansions, strings, concatenation, `negated_command`) lies outside the part of the grammar modelled here, and no whole-program parser is built.
- Operands within `Precedence` are opaque `Lit` tokens. The grammar has a different operand class per sublanguage (`_literal`, `_expression`), and those classes are not modelled.
- CharClasses.IsWhitespace: `\s` is modelled as the six ASCII separators (space, tab, newline, carriage return, form feed, vertical tab), not the full set that tree-sitter's `\s` denotes when it translates the pattern.
- CharClasses.ParseClassBody: reads only the class syntax that `noneOf` can produce. It refuses ranges, an unescaped `]`, and every escape other than `\s` and a backslash before one of the metacharacters `\ . + * ? ( ) | [ ] { } ^ $ # & - ~`, rather than giving them their full meaning in tree-sitter's pattern syntax. Some versions of that syntax accept more: an escaped non-alphanumeric ASCII character other than `<` and `>`. The model refuses those escapes, and the table uses none of them. It also refuses an unescaped `[`, which tree-sitter's reader takes as the start of a nested class. A `&&` or `~~` formed by two adjacent entries, which that reader takes as a set operation, is read here as two literal characters; the table has no such pair, since its only `&` entry is followed by `;`.
- Tokens.IsComment: says what `#.*` matches as a whole token. How the lexer picks a comment over a word that starts with `#` (lexical precedence -10) is not modelled.
