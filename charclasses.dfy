/**
 * The character classes of the grammar's `word` token.
 *
 * The grammar keeps a table of the characters that end a word and turns it
 * into a negated regular-expression class with the helper `noneOf`, which
 * joins the table entries into the text `[^...]` after doubling every entry
 * that is a lone backslash.  This module models both steps textually and
 * gives the resulting pattern a meaning, so that the class the generator
 * sees can be compared with the characters the table lists.
 */
module CharClasses {
  import opened Wrappers

  /** The table of characters a bare word may not contain, entry by entry as
      the grammar writes them (regular-expression fragments). */
  const SpecialCharacters: seq<string> :=
    ["'", "\"", "<", ">", "{", "}", "\\[", "\\]", "(", ")", "`", "$",
     "|", "&", ";", "\\", "\\s", "#"]

  /** Whitespace as the `\s` escape.  Only the ASCII separators are modelled. */
  predicate IsWhitespace(c: char) {
    c == ' ' || c == '\t' || c == '\n' || c == '\r' || c == '\U{000C}' || c == '\U{000B}'
  }

  /** The characters the table denotes once it has been read as a class. */
  predicate IsSpecialChar(c: char) {
    c == '\'' || c == '"' || c == '<' || c == '>' || c == '{' || c == '}' ||
    c == '[' || c == ']' || c == '(' || c == ')' || c == '`' || c == '$' ||
    c == '|' || c == '&' || c == ';' || c == '\\' || c == '#'
  }

  /** An entry that is the backslash character alone. */
  predicate IsLoneBackslash(c: string) {
    |c| == 1 && c[0] == '\\'
  }

  /** The escaping `noneOf` applies to one entry: a lone backslash is doubled. */
  function EscapeEntry(c: string): string {
    if IsLoneBackslash(c) then "\\\\" else c
  }

  function Join(parts: seq<string>): string {
    if parts == [] then "" else parts[0] + Join(parts[1..])
  }

  function EscapeAll(cs: seq<string>): (r: seq<string>)
    ensures |r| == |cs|
    ensures forall i :: 0 <= i < |cs| ==> r[i] == EscapeEntry(cs[i])
  {
    if cs == [] then [] else [EscapeEntry(cs[0])] + EscapeAll(cs[1..])
  }

  /** The pattern text `noneOf` builds from its arguments. */
  function NoneOf(cs: seq<string>): string {
    "[^" + Join(EscapeAll(cs)) + "]"
  }

  /** One member of a bracketed class: a literal character or the `\s` class. */
  datatype ClassItem = Char(c: char) | Space

  predicate ItemMatches(item: ClassItem, c: char) {
    match item
    case Char(d) => c == d
    case Space => IsWhitespace(c)
  }

  predicate IsAsciiAlnum(c: char) {
    ('a' <= c <= 'z') || ('A' <= c <= 'Z') || ('0' <= c <= '9')
  }

  /** The characters a backslash may escape inside a class and stand for
      themselves: the metacharacters of the pattern syntax. */
  predicate IsEscapableMeta(c: char) {
    c == '\\' || c == '.' || c == '+' || c == '*' || c == '?' || c == '(' ||
    c == ')' || c == '|' || c == '[' || c == ']' || c == '{' || c == '}' ||
    c == '^' || c == '$' || c == '#' || c == '&' || c == '-' || c == '~'
  }

  /** Reads the body of a bracketed class.  A backslash escapes the next
      character (`\s` is the whitespace class, a metacharacter stands for
      itself, and any other escape is refused); an unescaped `]` would close the
      class, a `-` would form a range and a `[` would open a nested class,
      all three refused; a trailing lone
      backslash escapes the closing bracket and leaves the class open. */
  function ParseClassBody(body: string): Option<seq<ClassItem>>
    decreases |body|
  {
    if body == [] then Some([])
    else if body[0] == '\\' then
      if |body| < 2 then None
      else
        var item := if body[1] == 's' then Some(Space)
                    else if IsEscapableMeta(body[1]) then Some(Char(body[1]))
                    else None;
        match (item, ParseClassBody(body[2..]))
        case (Some(i), Some(tail)) => Some([i] + tail)
        case _ => None
    else if body[0] == ']' || body[0] == '-' || body[0] == '[' then None
    else
      match ParseClassBody(body[1..])
      case Some(tail) => Some([Char(body[0])] + tail)
      case None => None
  }

  /** The items of a negated class `[^...]`, if the text is one. */
  function NegatedClass(pattern: string): Option<seq<ClassItem>> {
    if |pattern| >= 3 && pattern[..2] == "[^" && pattern[|pattern| - 1] == ']'
    then ParseClassBody(pattern[2..|pattern| - 1])
    else None
  }

  /** Whether the negated class written as `pattern` matches `c`; an
      ill-formed pattern matches nothing. */
  predicate NegatedClassMatches(pattern: string, c: char) {
    match NegatedClass(pattern)
    case Some(items) => NoItemMatches(items, c)
    case None => false
  }

  /** A table entry that denotes exactly one class item once escaped. */
  predicate WellFormedEntry(c: string) {
    IsLoneBackslash(c)
    || (|c| == 1 && c[0] != ']' && c[0] != '-' && c[0] != '[')
    || (|c| == 2 && c[0] == '\\' && (c[1] == 's' || IsEscapableMeta(c[1])))
  }

  function EntryItem(c: string): ClassItem
    requires WellFormedEntry(c)
  {
    if IsLoneBackslash(c) then Char('\\')
    else if |c| == 1 then Char(c[0])
    else if c[1] == 's' then Space
    else Char(c[1])
  }

  function EntryItems(cs: seq<string>): (r: seq<ClassItem>)
    requires forall i :: 0 <= i < |cs| ==> WellFormedEntry(cs[i])
    ensures |r| == |cs|
    ensures forall i :: 0 <= i < |cs| ==> r[i] == EntryItem(cs[i])
  {
    if cs == [] then [] else [EntryItem(cs[0])] + EntryItems(cs[1..])
  }

  /** Escaping and joining a table of well-formed entries, then reading the
      result back as a class body, yields one item per entry, in order, and
      does not disturb what follows. */
  lemma {:induction false} EscapedJoinReads(cs: seq<string>, rest: string)
    requires forall i :: 0 <= i < |cs| ==> WellFormedEntry(cs[i])
    ensures ParseClassBody(Join(EscapeAll(cs)) + rest) ==
            match ParseClassBody(rest)
            case Some(tail) => Some(EntryItems(cs) + tail)
            case None => None
  {
    if cs == [] {
      assert Join(EscapeAll(cs)) + rest == rest;
      assert EntryItems(cs) == [];
      match ParseClassBody(rest)
      case Some(tail) => assert EntryItems(cs) + tail == tail;
      case None =>
    } else {
      var c := cs[0];
      EscapedJoinReads(cs[1..], rest);
      var after := Join(EscapeAll(cs[1..])) + rest;
      assert Join(EscapeAll(cs)) + rest == EscapeEntry(c) + after;
      EntryReads(c, after);
      match ParseClassBody(rest)
      case Some(tail) =>
        assert EntryItems(cs) + tail == [EntryItem(c)] + (EntryItems(cs[1..]) + tail);
      case None =>
    }
  }

  /** One escaped entry reads back as its item, followed by whatever the rest
      of the body reads as. */
  lemma EntryReads(c: string, after: string)
    requires WellFormedEntry(c)
    ensures ParseClassBody(EscapeEntry(c) + after) ==
            match ParseClassBody(after)
            case Some(tail) => Some([EntryItem(c)] + tail)
            case None => None
  {
    var s := EscapeEntry(c) + after;
    if IsLoneBackslash(c) {
      assert s[0] == '\\' && s[1] == '\\' && s[2..] == after;
    } else if |c| == 1 {
      assert s[0] == c[0] && s[0] != '\\' && s[1..] == after;
    } else {
      assert s[0] == '\\' && s[1] == c[1] && s[2..] == after;
    }
  }

  /** `noneOf` turns a table of well-formed entries into a negated class with
      exactly the entries' items. */
  lemma NoneOfItems(cs: seq<string>)
    requires forall i :: 0 <= i < |cs| ==> WellFormedEntry(cs[i])
    ensures NegatedClass(NoneOf(cs)) == Some(EntryItems(cs))
  {
    var body := Join(EscapeAll(cs));
    EscapedJoinReads(cs, "");
    assert body + "" == body;
    assert EntryItems(cs) + [] == EntryItems(cs);
    assert NoneOf(cs) == "[^" + body + "]";
    PatternBody(body);
  }

  /** The text `[^` + body + `]` is read through its body. */
  lemma PatternBody(body: string)
    ensures NegatedClass("[^" + body + "]") == ParseClassBody(body)
  {
    var p := "[^" + body + "]";
    assert |p| == |body| + 3;
    assert p[..2] == "[^";
    assert p[|p| - 1] == ']';
    assert p[2..|p| - 1] == body;
  }

  /** A table made of two well-formed parts is well formed. */
  lemma WellFormedAppend(a: seq<string>, b: seq<string>)
    requires forall i :: 0 <= i < |a| ==> WellFormedEntry(a[i])
    requires forall i :: 0 <= i < |b| ==> WellFormedEntry(b[i])
    ensures forall i :: 0 <= i < |a + b| ==> WellFormedEntry((a + b)[i])
  {
    forall i | 0 <= i < |a + b| ensures WellFormedEntry((a + b)[i]) {
      if i < |a| { assert (a + b)[i] == a[i]; } else { assert (a + b)[i] == b[i - |a|]; }
    }
  }

  /** Reading a table in two parts gives the items of both parts in order. */
  lemma {:induction false} EntryItemsAppend(a: seq<string>, b: seq<string>)
    requires forall i :: 0 <= i < |a| ==> WellFormedEntry(a[i])
    requires forall i :: 0 <= i < |b| ==> WellFormedEntry(b[i])
    ensures forall i :: 0 <= i < |a + b| ==> WellFormedEntry((a + b)[i])
    ensures EntryItems(a + b) == EntryItems(a) + EntryItems(b)
    decreases |a|
  {
    WellFormedAppend(a, b);
    if a == [] {
      assert a + b == b;
    } else {
      assert (a + b)[0] == a[0];
      assert (a + b)[1..] == a[1..] + b;
      EntryItemsAppend(a[1..], b);
      assert EntryItems(a + b) == [EntryItem(a[0])] + EntryItems(a[1..] + b);
      assert EntryItems(a) == [EntryItem(a[0])] + EntryItems(a[1..]);
    }
  }

  lemma TableItemsFront()
    ensures forall i :: 0 <= i < 6 ==> WellFormedEntry(SpecialCharacters[0..6][i])
    ensures EntryItems(SpecialCharacters[0..6]) ==
            [Char('\''), Char('"'), Char('<'), Char('>'), Char('{'), Char('}')]
  {
    var p := SpecialCharacters[0..6];
    assert WellFormedEntry(p[0]);
    assert WellFormedEntry(p[1]);
    assert WellFormedEntry(p[2]);
    assert WellFormedEntry(p[3]);
    assert WellFormedEntry(p[4]);
    assert WellFormedEntry(p[5]);
  }

  lemma TableItemsMiddle()
    ensures forall i :: 0 <= i < 6 ==> WellFormedEntry(SpecialCharacters[6..12][i])
    ensures EntryItems(SpecialCharacters[6..12]) ==
            [Char('['), Char(']'), Char('('), Char(')'), Char('`'), Char('$')]
  {
    var p := SpecialCharacters[6..12];
    assert WellFormedEntry(p[0]);
    assert WellFormedEntry(p[1]);
    assert WellFormedEntry(p[2]);
    assert WellFormedEntry(p[3]);
    assert WellFormedEntry(p[4]);
    assert WellFormedEntry(p[5]);
  }

  lemma TableItemsBack()
    ensures forall i :: 0 <= i < 6 ==> WellFormedEntry(SpecialCharacters[12..18][i])
    ensures EntryItems(SpecialCharacters[12..18]) ==
            [Char('|'), Char('&'), Char(';'), Char('\\'), Space, Char('#')]
  {
    var p := SpecialCharacters[12..18];
    assert WellFormedEntry(p[0]);
    assert WellFormedEntry(p[1]);
    assert WellFormedEntry(p[2]);
    assert WellFormedEntry(p[3]);
    assert WellFormedEntry(p[4]);
    assert WellFormedEntry(p[5]);
  }

  /** No item of the list matches `c`. */
  predicate NoItemMatches(items: seq<ClassItem>, c: char) {
    forall i :: 0 <= i < |items| ==> !ItemMatches(items[i], c)
  }

  lemma NoItemMatchesAppend(a: seq<ClassItem>, b: seq<ClassItem>, c: char)
    ensures NoItemMatches(a + b, c) <==> NoItemMatches(a, c) && NoItemMatches(b, c)
  {
    if NoItemMatches(a, c) && NoItemMatches(b, c) {
      forall i | 0 <= i < |a + b| ensures !ItemMatches((a + b)[i], c) {
        if i >= |a| { assert (a + b)[i] == b[i - |a|]; }
      }
    }
    if NoItemMatches(a + b, c) {
      forall i | 0 <= i < |a| ensures !ItemMatches(a[i], c) {
        assert (a + b)[i] == a[i];
      }
      forall i | 0 <= i < |b| ensures !ItemMatches(b[i], c) {
        assert (a + b)[|a| + i] == b[i];
      }
    }
  }

  /** The table of the grammar is well formed throughout, and its class has
      the items of its three parts. */
  lemma SpecialClassItems()
    ensures forall i :: 0 <= i < |SpecialCharacters| ==> WellFormedEntry(SpecialCharacters[i])
    ensures NegatedClass(NoneOf(SpecialCharacters)) ==
            Some([Char('\''), Char('"'), Char('<'), Char('>'), Char('{'), Char('}')] +
                 [Char('['), Char(']'), Char('('), Char(')'), Char('`'), Char('$')] +
                 [Char('|'), Char('&'), Char(';'), Char('\\'), Space, Char('#')])
  {
    var t := SpecialCharacters;
    var front, middle, back := t[0..6], t[6..12], t[12..18];
    assert t == front + middle + back;
    TableItemsFront();
    TableItemsMiddle();
    TableItemsBack();
    EntryItemsAppend(front, middle);
    EntryItemsAppend(front + middle, back);
    assert EntryItems(t) == EntryItems(front) + EntryItems(middle) + EntryItems(back);
    NoneOfItems(t);
  }

  /** Six items at a time: which characters the items rule out. */
  lemma SixItemsMeaning(items: seq<ClassItem>, c: char)
    requires |items| == 6
    ensures NoItemMatches(items, c) <==>
            !ItemMatches(items[0], c) && !ItemMatches(items[1], c) && !ItemMatches(items[2], c) &&
            !ItemMatches(items[3], c) && !ItemMatches(items[4], c) && !ItemMatches(items[5], c)
  {
    if !ItemMatches(items[0], c) && !ItemMatches(items[1], c) && !ItemMatches(items[2], c) &&
       !ItemMatches(items[3], c) && !ItemMatches(items[4], c) && !ItemMatches(items[5], c) {
      forall i | 0 <= i < 6 ensures !ItemMatches(items[i], c) {
        if i == 0 {} else if i == 1 {} else if i == 2 {} else if i == 3 {} else if i == 4 {} else {}
      }
    }
  }

  /** What the eighteen items of the table rule out. */
  lemma SpecialItemsMeaning(c: char)
    ensures NoItemMatches([Char('\''), Char('"'), Char('<'), Char('>'), Char('{'), Char('}')] +
                          [Char('['), Char(']'), Char('('), Char(')'), Char('`'), Char('$')] +
                          [Char('|'), Char('&'), Char(';'), Char('\\'), Space, Char('#')], c) <==>
            !IsWhitespace(c) && !IsSpecialChar(c)
  {
    var a, b, d := [Char('\''), Char('"'), Char('<'), Char('>'), Char('{'), Char('}')],
                   [Char('['), Char(']'), Char('('), Char(')'), Char('`'), Char('$')],
                   [Char('|'), Char('&'), Char(';'), Char('\\'), Space, Char('#')];
    NoItemMatchesAppend(a, b, c);
    NoItemMatchesAppend(a + b, d, c);
    SixItemsMeaning(a, c);
    SixItemsMeaning(b, c);
    SixItemsMeaning(d, c);
  }

  /** The characters a bare word may contain outright: exactly those that are
      neither whitespace nor one of the table's characters. */
  lemma WordClassMeaning(c: char)
    ensures NegatedClassMatches(NoneOf(SpecialCharacters), c) <==>
            !IsWhitespace(c) && !IsSpecialChar(c)
  {
    assert NegatedClassMatches(NoneOf(SpecialCharacters), c) <==>
           NoItemMatches([Char('\''), Char('"'), Char('<'), Char('>'), Char('{'), Char('}')] +
                          [Char('['), Char(']'), Char('('), Char(')'), Char('`'), Char('$')] +
                          [Char('|'), Char('&'), Char(';'), Char('\\'), Space, Char('#')], c) by {
      SpecialClassItems();
    }
    SpecialItemsMeaning(c);
  }

  /** `noneOf('\\s')`, the character after a backslash in a word: any
      character but whitespace. */
  lemma NonSpaceClassMeaning(c: char)
    ensures NegatedClassMatches(NoneOf(["\\s"]), c) <==> !IsWhitespace(c)
  {
    NoneOfItems(["\\s"]);
  }

  /** The table's lone backslash is followed by the `\\s` entry.  Doubled, as
      `noneOf` does, the pair reads as a backslash and the whitespace class;
      joined as it stands, the first backslash would escape the second and
      the pair would read as a backslash and the letter `s`. */
  lemma BackslashDoublingNeeded()
    ensures SpecialCharacters[15..17] == ["\\", "\\s"]
    ensures ParseClassBody(Join(EscapeAll(SpecialCharacters[15..17]))) == Some([Char('\\'), Space])
    ensures ParseClassBody(Join(SpecialCharacters[15..17])) == Some([Char('\\'), Char('s')])
  {
    var pair := SpecialCharacters[15..17];
    assert pair[0] == "\\" && pair[1] == "\\s";
    var escaped := EscapeAll(pair);
    assert escaped == ["\\\\", "\\s"];
    assert escaped[1..] == ["\\s"] && escaped[1..][1..] == [];
    assert pair[1..] == ["\\s"] && pair[1..][1..] == [];
    var doubled, plain := "\\\\\\s", "\\\\s";
    assert Join(escaped[1..]) == "\\s" + Join([]);
    assert Join(escaped) == escaped[0] + Join(escaped[1..]) == doubled;
    assert Join(pair[1..]) == "\\s" + Join([]);
    assert Join(pair) == pair[0] + Join(pair[1..]) == plain;
    assert doubled[2..] == "\\s" && "\\s"[2..] == "";
    assert plain[2..] == "s" && "s"[1..] == "";
    assert ParseClassBody("") == Some([]);
    assert [Space] + [] == [Space] && [Char('s')] + [] == [Char('s')];
    assert ParseClassBody("\\s") == Some([Space]);
    assert doubled[0] == '\\' && doubled[1] == '\\' && IsEscapableMeta('\\');
    assert [Char('\\')] + [Space] == [Char('\\'), Space];
    assert ParseClassBody(doubled) == Some([Char('\\'), Space]);
    assert ParseClassBody("s") == Some([Char('s')]);
    assert plain[0] == '\\' && plain[1] == '\\';
    assert [Char('\\')] + [Char('s')] == [Char('\\'), Char('s')];
    assert ParseClassBody(plain) == Some([Char('\\'), Char('s')]);
  }
}
