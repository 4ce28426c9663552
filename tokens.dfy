/**
 * The terminal tokens of the grammar that are defined by regular
 * expressions: `word`, `number`, `raw_string`, `ansii_c_string`,
 * `test_operator`, `comment`, `_terminator`, the variable names of a simple
 * expansion and the whitespace trivia.  Each is a predicate that holds of
 * exactly the texts its expression matches as a whole token.
 */
module Tokens {
  import opened Wrappers
  import opened CharClasses

  // ---------------------------------------------------------------------
  // word
  // ---------------------------------------------------------------------

  /** A character a word may contain outright: neither whitespace nor one of
      the table's characters.  These are exactly the characters the class
      `noneOf(...SPECIAL_CHARACTERS)` matches (`WordCharIsTableClass`). */
  predicate WordChar(c: char) {
    !IsWhitespace(c) && !IsSpecialChar(c)
  }

  /** A character a backslash may escape inside a word: any but whitespace,
      which is what `noneOf('\\s')` matches (`EscapableCharIsClass`). */
  predicate EscapableChar(c: char) {
    !IsWhitespace(c)
  }

  lemma WordCharIsTableClass(c: char)
    ensures WordChar(c) <==> NegatedClassMatches(NoneOf(SpecialCharacters), c)
  {
    WordClassMeaning(c);
  }

  lemma EscapableCharIsClass(c: char)
    ensures EscapableChar(c) <==> NegatedClassMatches(NoneOf(["\\s"]), c)
  {
    NonSpaceClassMeaning(c);
  }

  /** A run of word units: plain word characters and backslash escapes. */
  predicate WordUnits(s: string)
    decreases |s|
  {
    if s == [] then true
    else if WordChar(s[0]) then WordUnits(s[1..])
    else |s| >= 2 && s[0] == '\\' && EscapableChar(s[1]) && WordUnits(s[2..])
  }

  /** The `word` token: one or more units. */
  predicate IsWord(s: string) {
    |s| > 0 && WordUnits(s)
  }

  /** A word never contains a whitespace character, escaped or not, so
      whitespace always separates words. */
  lemma {:induction false} WordUnitsHaveNoWhitespace(s: string)
    requires WordUnits(s)
    ensures forall i :: 0 <= i < |s| ==> !IsWhitespace(s[i])
  {
    if s != [] {
      if WordChar(s[0]) {
        WordUnitsHaveNoWhitespace(s[1..]);
        forall i | 1 <= i < |s| ensures !IsWhitespace(s[i]) { assert s[i] == s[1..][i - 1]; }
      } else {
        WordUnitsHaveNoWhitespace(s[2..]);
        forall i | 2 <= i < |s| ensures !IsWhitespace(s[i]) { assert s[i] == s[2..][i - 2]; }
      }
    }
  }

  lemma WordHasNoWhitespace(s: string)
    requires IsWord(s)
    ensures forall i :: 0 <= i < |s| ==> !IsWhitespace(s[i])
  {
    WordUnitsHaveNoWhitespace(s);
  }

  /** Runs of word units concatenate. */
  lemma {:induction false} WordUnitsAppend(a: string, b: string)
    requires WordUnits(a) && WordUnits(b)
    ensures WordUnits(a + b)
  {
    if a == [] {
      assert a + b == b;
    } else if WordChar(a[0]) {
      WordUnitsAppend(a[1..], b);
      assert (a + b)[0] == a[0];
      assert (a + b)[1..] == a[1..] + b;
    } else {
      WordUnitsAppend(a[2..], b);
      assert (a + b)[0] == a[0] && (a + b)[1] == a[1];
      assert (a + b)[2..] == a[2..] + b;
    }
  }

  /** Two words written without a separator form one word. */
  lemma WordConcat(a: string, b: string)
    requires IsWord(a) && IsWord(b)
    ensures IsWord(a + b)
  {
    WordUnitsAppend(a, b);
  }

  /** Without backslashes, a text is a run of word units exactly when none of
      its characters is whitespace or one of the table's characters. */
  lemma {:induction false} PlainWordUnits(s: string)
    requires forall i :: 0 <= i < |s| ==> s[i] != '\\'
    ensures WordUnits(s) <==> forall i :: 0 <= i < |s| ==> !IsWhitespace(s[i]) && !IsSpecialChar(s[i])
  {
    if s != [] {
      PlainWordUnits(s[1..]);
      assert forall i :: 1 <= i < |s| ==> s[i] == s[1..][i - 1];
      assert forall i :: 0 <= i < |s| - 1 ==> s[1..][i] == s[i + 1];
    }
  }

  /** A backslash turns any character other than whitespace into a word,
      table characters included; a backslash before whitespace is no word. */
  lemma EscapedWord(c: char)
    ensures IsWord(['\\', c]) <==> !IsWhitespace(c)
  {
    var s := ['\\', c];
    assert s[0] == '\\' && s[1] == c && s[2..] == [];
    assert !WordChar(s[0]) && WordUnits(s[2..]);
    assert WordUnits(s) <==> EscapableChar(c);
  }

  // ---------------------------------------------------------------------
  // number
  // ---------------------------------------------------------------------

  predicate IsDigit(c: char) {
    '0' <= c <= '9'
  }

  /** A character of the part after `#`: `[0-9A-Za-z@_]`. */
  predicate IsBaseDigit(c: char) {
    IsAsciiAlnum(c) || c == '@' || c == '_'
  }

  predicate AllDigits(s: string) {
    forall i :: 0 <= i < |s| ==> IsDigit(s[i])
  }

  predicate AllBaseDigits(s: string) {
    forall i :: 0 <= i < |s| ==> IsBaseDigit(s[i])
  }

  /** The three parts of a `number`: the optional `0x`, the digits and the
      optional part after `#`. */
  datatype NumberLiteral = NumberLiteral(hex: bool, digits: string, suffix: Option<string>)

  predicate ValidNumber(n: NumberLiteral) {
    |n.digits| > 0 && AllDigits(n.digits) &&
    (n.suffix.Some? ==> |n.suffix.value| > 0 && AllBaseDigits(n.suffix.value))
  }

  /** The text of a number literal. */
  function RenderNumber(n: NumberLiteral): string {
    (if n.hex then "0x" else "") + RenderDigitsAndSuffix(n)
  }

  /** The length of the leading run of decimal digits. */
  function DigitRun(s: string): (k: nat)
    ensures k <= |s|
    ensures AllDigits(s[..k])
    ensures k < |s| ==> !IsDigit(s[k])
  {
    if s == [] || !IsDigit(s[0]) then 0
    else
      var k := 1 + DigitRun(s[1..]);
      assert forall i :: 1 <= i < k ==> s[..k][i] == s[1..][..k - 1][i - 1];
      k
  }

  /** Reads a `number` token: `(0x)?[0-9]+(#[0-9A-Za-z@_]+)?` over the whole
      text.  A `0x` at the front can only be the prefix, since `x` is no
      digit. */
  function ParseNumber(s: string): Option<NumberLiteral> {
    if |s| >= 2 && s[0] == '0' && s[1] == 'x' then ParseDigitsAndSuffix(true, s[2..])
    else ParseDigitsAndSuffix(false, s)
  }

  /** Reads the digits and the optional `#` part; the digits are the longest
      run, since `#` is no digit. */
  function ParseDigitsAndSuffix(hex: bool, body: string): Option<NumberLiteral> {
    var k := DigitRun(body);
    if k == 0 then None
    else
      var tail := body[k..];
      if tail == [] then Some(NumberLiteral(hex, body[..k], None))
      else if tail[0] == '#' && |tail| > 1 && AllBaseDigits(tail[1..])
      then Some(NumberLiteral(hex, body[..k], Some(tail[1..])))
      else None
  }

  predicate IsNumber(s: string) {
    ParseNumber(s).Some?
  }

  /** The text of a literal without its `0x`. */
  function RenderDigitsAndSuffix(n: NumberLiteral): string {
    n.digits + (match n.suffix case Some(b) => "#" + b case None => "")
  }

  lemma ParseDigitsAndSuffixSound(hex: bool, body: string)
    requires ParseDigitsAndSuffix(hex, body).Some?
    ensures ValidNumber(ParseDigitsAndSuffix(hex, body).value)
    ensures ParseDigitsAndSuffix(hex, body).value.hex == hex
    ensures RenderDigitsAndSuffix(ParseDigitsAndSuffix(hex, body).value) == body
  {
    var k := DigitRun(body);
    assert body == body[..k] + body[k..];
    var tail := body[k..];
    if tail != [] { assert tail == "#" + tail[1..]; }
  }

  /** Reading a number gives a valid literal whose text is the input. */
  lemma ParseNumberSound(s: string)
    requires ParseNumber(s).Some?
    ensures ValidNumber(ParseNumber(s).value)
    ensures RenderNumber(ParseNumber(s).value) == s
  {
    if |s| >= 2 && s[0] == '0' && s[1] == 'x' {
      ParseDigitsAndSuffixSound(true, s[2..]);
      assert s == "0x" + s[2..];
    } else {
      ParseDigitsAndSuffixSound(false, s);
    }
  }

  lemma ParseRenderDigitsAndSuffix(n: NumberLiteral)
    requires ValidNumber(n)
    ensures ParseDigitsAndSuffix(n.hex, RenderDigitsAndSuffix(n)) == Some(n)
  {
    var after := match n.suffix case Some(b) => "#" + b case None => "";
    var body := RenderDigitsAndSuffix(n);
    assert body == n.digits + after;
    DigitRunOf(n.digits, after);
    assert body[..|n.digits|] == n.digits;
    assert body[|n.digits|..] == after;
    if n.suffix.Some? {
      assert after[0] == '#' && after[1..] == n.suffix.value;
    }
  }

  /** Without its `0x`, a valid literal has no `x` second: that place holds
      a digit or the `#`. */
  lemma NoHexMarker(n: NumberLiteral)
    requires ValidNumber(n)
    ensures |RenderDigitsAndSuffix(n)| >= 2 ==>
              (IsDigit(RenderDigitsAndSuffix(n)[1]) || RenderDigitsAndSuffix(n)[1] == '#')
    ensures |RenderDigitsAndSuffix(n)| >= 2 ==> RenderDigitsAndSuffix(n)[1] != 'x'
  {
    var body := RenderDigitsAndSuffix(n);
    if |body| >= 2 {
      if |n.digits| >= 2 {
        assert body[1] == n.digits[1];
      } else {
        assert n.suffix.Some?;
        assert body[1] == '#';
      }
    }
  }

  /** Every valid literal is read back from its text. */
  lemma ParseRenderNumber(n: NumberLiteral)
    requires ValidNumber(n)
    ensures ParseNumber(RenderNumber(n)) == Some(n)
  {
    var s := RenderNumber(n);
    var body := RenderDigitsAndSuffix(n);
    ParseRenderDigitsAndSuffix(n);
    if n.hex {
      assert s[2..] == body;
    } else {
      NoHexMarker(n);
      assert s == body;
    }
  }

  /** The digit run of digits followed by a non-digit or nothing is exactly
      the digits. */
  lemma {:induction false} DigitRunOf(digits: string, after: string)
    requires AllDigits(digits)
    requires after == [] || !IsDigit(after[0])
    ensures DigitRun(digits + after) == |digits|
  {
    if digits == [] {
      assert digits + after == after;
    } else {
      DigitRunOf(digits[1..], after);
      assert (digits + after)[1..] == digits[1..] + after;
    }
  }

  /** A number is exactly the text of some valid literal. */
  lemma NumberShape(s: string)
    ensures IsNumber(s) <==> exists n :: ValidNumber(n) && RenderNumber(n) == s
  {
    if IsNumber(s) { ParseNumberSound(s); }
    if exists n :: ValidNumber(n) && RenderNumber(n) == s {
      var n :| ValidNumber(n) && RenderNumber(n) == s;
      ParseRenderNumber(n);
    }
  }

  // ---------------------------------------------------------------------
  // raw_string and ansii_c_string
  // ---------------------------------------------------------------------

  /** `'[^']*'`: quotes around a body without quotes. */
  predicate IsRawString(s: string) {
    |s| >= 2 && s[0] == '\'' && s[|s| - 1] == '\'' &&
    forall i :: 0 < i < |s| - 1 ==> s[i] != '\''
  }

  lemma RawStringBody(body: string)
    ensures IsRawString("'" + body + "'") <==> forall i :: 0 <= i < |body| ==> body[i] != '\''
  {
    var s := "'" + body + "'";
    assert forall i :: 0 <= i < |body| ==> s[i + 1] == body[i];
  }

  /** The first quote after the opening one ends a raw string: no raw string
      is a proper prefix of another, so two raw strings side by side are
      never read as one. */
  lemma RawStringEndsAtFirstQuote(s: string, k: nat)
    requires IsRawString(s)
    requires 2 <= k <= |s| && IsRawString(s[..k])
    ensures k == |s|
  {
  }

  /** The body of `\$'([^']|\\')*'`: units that are either a character other
      than a quote or a backslash followed by a quote. */
  predicate AnsiBody(b: string)
    decreases |b|
  {
    b == [] ||
    (b[0] != '\'' && AnsiBody(b[1..])) ||
    (|b| >= 2 && b[0] == '\\' && b[1] == '\'' && AnsiBody(b[2..]))
  }

  /** `ansii_c_string`: `$'`, a body, and a closing quote. */
  predicate IsAnsiCString(s: string) {
    |s| >= 3 && s[0] == '$' && s[1] == '\'' && s[|s| - 1] == '\'' &&
    AnsiBody(s[2..|s| - 1])
  }

  /** Every quote of a body comes right after a backslash. */
  predicate QuotesEscaped(b: string) {
    forall i :: 0 <= i < |b| && b[i] == '\'' ==> i > 0 && b[i - 1] == '\\'
  }

  /** A body is exactly a text whose every quote is escaped. */
  lemma {:induction false} AnsiBodyIff(b: string)
    ensures AnsiBody(b) <==> QuotesEscaped(b)
    decreases |b|
  {
    if b == [] {
    } else if |b| >= 2 && b[1] == '\'' {
      var t := b[2..];
      AnsiBodyIff(t);
      AnsiBodyIff(b[1..]);
      assert forall i :: 0 <= i < |t| ==> t[i] == b[i + 2];
      if QuotesEscaped(b) {
        assert b[0] == '\\';
        assert QuotesEscaped(t) by {
          forall i | 0 <= i < |t| && t[i] == '\'' ensures i > 0 && t[i - 1] == '\\' {
            assert b[i + 2] == '\'';
          }
        }
      }
      if AnsiBody(b) {
        assert !AnsiBody(b[1..]) by {
          assert b[1..][0] == '\'';
        }
        assert b[0] == '\\' && AnsiBody(t);
        forall i | 0 <= i < |b| && b[i] == '\'' ensures i > 0 && b[i - 1] == '\\' {
          if i >= 2 { assert t[i - 2] == '\''; if i == 2 { assert false; } }
        }
      }
    } else {
      var t := b[1..];
      AnsiBodyIff(t);
      assert forall i :: 0 <= i < |t| ==> t[i] == b[i + 1];
      if QuotesEscaped(b) {
        assert b[0] != '\'';
        assert QuotesEscaped(t) by {
          forall i | 0 <= i < |t| && t[i] == '\'' ensures i > 0 && t[i - 1] == '\\' {
            assert b[i + 1] == '\'';
          }
        }
      }
      if AnsiBody(b) {
        assert b[0] != '\'' && AnsiBody(t);
        forall i | 0 <= i < |b| && b[i] == '\'' ensures i > 0 && b[i - 1] == '\\' {
          if i >= 1 { assert t[i - 1] == '\''; if i == 1 { assert false; } }
        }
      }
    }
  }

  /** An ANSI-C string is `$'`, a body whose every quote is escaped, and `'`. */
  lemma AnsiCStringShape(s: string)
    requires |s| >= 3 && s[0] == '$' && s[1] == '\'' && s[|s| - 1] == '\''
    ensures IsAnsiCString(s) <==> QuotesEscaped(s[2..|s| - 1])
  {
    AnsiBodyIff(s[2..|s| - 1]);
  }

  // ---------------------------------------------------------------------
  // test_operator, comment, _terminator
  // ---------------------------------------------------------------------

  predicate IsAsciiLetter(c: char) {
    ('a' <= c <= 'z') || ('A' <= c <= 'Z')
  }

  /** `test_operator`: `-` followed by one or more ASCII letters. */
  predicate IsTestOperator(s: string) {
    |s| >= 2 && s[0] == '-' && forall i :: 1 <= i < |s| ==> IsAsciiLetter(s[i])
  }

  /** The keyword operators of binary test expressions. */
  const DashTestKeywords: seq<string> :=
    ["-o", "-a", "-eq", "-ne", "-nt", "-ot", "-ef", "-lt", "-le", "-gt", "-ge"]

  /** A dash followed by letters is also a word. */
  lemma DashLettersAreWords(s: string)
    requires IsTestOperator(s)
    ensures IsWord(s)
  {
    forall i | 0 <= i < |s| ensures s[i] != '\\' && !IsWhitespace(s[i]) && !IsSpecialChar(s[i]) {
      if i > 0 { assert IsAsciiLetter(s[i]); }
    }
    PlainWordUnits(s);
  }

  /** Every keyword operator of a binary test is shaped like a unary
      `test_operator`, and like a word too: only the position in the
      expression tells them apart. */
  lemma DashKeywordsAreTestOperators()
    ensures forall k :: k in DashTestKeywords ==> IsTestOperator(k) && IsWord(k)
  {
    forall k | k in DashTestKeywords ensures IsTestOperator(k) && IsWord(k) {
      assert IsTestOperator(k);
      DashLettersAreWords(k);
    }
  }

  /** `comment`: `#.*`, a hash and the rest of the line. */
  predicate IsComment(s: string) {
    |s| >= 1 && s[0] == '#' && forall i :: 0 <= i < |s| ==> s[i] != '\n'
  }

  /** The length of the leading run of characters other than a newline. */
  function LineLength(s: string): (k: nat)
    ensures k <= |s|
    ensures forall i :: 0 <= i < k ==> s[i] != '\n'
    ensures k < |s| ==> s[k] == '\n'
  {
    if s == [] || s[0] == '\n' then 0
    else
      var k := 1 + LineLength(s[1..]);
      assert forall i :: 1 <= i < k ==> s[i] == s[1..][i - 1];
      k
  }

  /** The longest comment at the front of a text that starts with `#` ends
      just before the first newline, or at the end of the text. */
  lemma CommentExtent(s: string)
    requires |s| >= 1 && s[0] == '#'
    ensures IsComment(s[..LineLength(s)])
    ensures forall k :: LineLength(s) < k <= |s| ==> !IsComment(s[..k])
  {
    var n := LineLength(s);
    forall k | n < k <= |s| ensures !IsComment(s[..k]) {
      assert s[..k][n] == '\n';
    }
  }

  /** `_terminator`: `;`, `;;`, a newline or `&`. */
  predicate IsTerminator(s: string) {
    s == ";" || s == ";;" || s == "\n" || s == "&"
  }

  /** A terminator is never a word, so it always ends the word before it. */
  lemma TerminatorIsNoWord(s: string)
    requires IsTerminator(s)
    ensures !IsWord(s)
  {
    assert s[0] != '\\';
  }

  // ---------------------------------------------------------------------
  // variable names and trivia
  // ---------------------------------------------------------------------

  /** `\w`: an ASCII letter, digit or underscore. */
  predicate IsNameChar(c: char) {
    IsAsciiAlnum(c) || c == '_'
  }

  /** `_simple_variable_name`: `\w+`. */
  predicate IsSimpleVariableName(s: string) {
    |s| >= 1 && forall i :: 0 <= i < |s| ==> IsNameChar(s[i])
  }

  /** `_special_variable_name`: one of `*`, `@`, `?`, `-`, `$`, `0`, `_`. */
  predicate IsSpecialVariableName(s: string) {
    s == "*" || s == "@" || s == "?" || s == "-" || s == "$" || s == "0" || s == "_"
  }

  /** The name after `$` in a `simple_expansion`: a simple name, a special
      name, or `!` or `#`, which are named special variables as well. */
  predicate IsExpansionName(s: string) {
    IsSimpleVariableName(s) || IsSpecialVariableName(s) || s == "!" || s == "#"
  }

  /** Beyond the `\w+` names, a simple expansion admits exactly seven
      one-character names: `*`, `@`, `?`, `-`, `$`, `!` and `#` (the special
      names `0` and `_` are simple names already). */
  lemma ExpansionNames(s: string)
    ensures IsExpansionName(s) <==>
            IsSimpleVariableName(s) ||
            s == "*" || s == "@" || s == "?" || s == "-" || s == "$" || s == "!" || s == "#"
    ensures IsExpansionName(s) && !IsSimpleVariableName(s) ==> |s| == 1 && !IsNameChar(s[0])
  {
    if s == "0" || s == "_" { assert IsNameChar(s[0]); }
  }

  /** `0` and `_` are the only names that are both special and simple. */
  lemma SpecialAndSimpleNames(s: string)
    ensures IsSpecialVariableName(s) && IsSimpleVariableName(s) <==> s == "0" || s == "_"
  {
    if s == "0" || s == "_" { assert IsNameChar(s[0]); }
  }

  /** The extra `\\?\s` between tokens: a whitespace character, possibly
      escaped by a backslash (a line continuation when it is a newline). */
  predicate IsSpaceTrivia(s: string) {
    (|s| == 1 && IsWhitespace(s[0])) || (|s| == 2 && s[0] == '\\' && IsWhitespace(s[1]))
  }

  /** Trivia between tokens: whitespace units and comments. */
  predicate IsTrivia(s: string) {
    IsSpaceTrivia(s) || IsComment(s)
  }

  /** No trivia is a word, so trivia never joins the words around it. */
  lemma TriviaIsNoWord(s: string)
    requires IsTrivia(s)
    ensures !IsWord(s)
  {
    if IsSpaceTrivia(s) {
      if |s| == 2 { assert s[2..] == []; }
    } else {
      assert s[0] == '#';
    }
  }
}
