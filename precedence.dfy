/**
 * Operator grouping in the three sublanguages, as a precedence-climbing
 * parser over a token sequence.
 *
 * The grammar states its groupings declaratively: each operator
 * alternative carries a level and an associativity, and the generated
 * parser resolves a shift/reduce choice between two operators by those
 * numbers.  Here the same choice is made explicitly: after an operand, the
 * next operator is taken into the current expression when its level is at
 * least the current bound, and the bound for a right operand is
 * `OperandMin` of its operator.
 *
 * `WellGrouped` describes the trees the grammar's precedences allow
 * without parentheses; `Flatten` writes a tree back as tokens.  The parser
 * returns only well-grouped trees whose tokens are its input, and it reads
 * every well-grouped tree back from its tokens, so each token sequence has
 * at most one well-grouped tree.
 */
module Precedence {
  import opened Wrappers
  import opened Operators

  /** A token of an operator sublanguage: an operand, or an operator or
      bracket. */
  datatype Token = Lit(text: string) | Op(sym: string)

  /** An expression tree.  In statements `Group` is a subshell and `Binary`
      is a `pipeline` or a `list`. */
  datatype Expr =
    | Leaf(text: string)
    | Group(inner: Expr)
    | Unary(op: string, operand: Expr)
    | Binary(left: Expr, op: string, right: Expr)
    | Ternary(cond: Expr, thenBranch: Expr, elseBranch: Expr)

  datatype Parsed = Parsed(tree: Expr, rest: seq<Token>)

  /** The tokens of a tree, in order. */
  function Flatten(e: Expr): seq<Token> {
    match e
    case Leaf(x) => [Lit(x)]
    case Group(inner) => [Op(OpenParen)] + Flatten(inner) + [Op(CloseParen)]
    case Unary(op, x) => [Op(op)] + Flatten(x)
    case Binary(l, op, r) => Flatten(l) + [Op(op)] + Flatten(r)
    case Ternary(c, t, f) => Flatten(c) + [Op(Question)] + Flatten(t) + [Op(Colon)] + Flatten(f)
  }

  /** The level of a binary operator, `Top` for an unknown one. */
  function BinaryLevel(g: OpTable, op: string): int {
    match g.binary(op)
    case Some(i) => i.level
    case None => Top
  }

  function BinaryOperandMin(g: OpTable, op: string): int {
    match g.binary(op)
    case Some(i) => OperandMin(i)
    case None => Top
  }

  function PrefixOperandMin(g: OpTable, op: string): int {
    match g.prefix(op)
    case Some(i) => OperandMin(i)
    case None => Top
  }

  function TernaryLevel(g: OpTable): int {
    match g.ternary
    case Some(i) => i.level
    case None => Top
  }

  function TernaryOperandMin(g: OpTable): int {
    match g.ternary
    case Some(i) => OperandMin(i)
    case None => Top
  }

  /** The loosest operator on the left spine of a tree: the operators a
      token before the tree would meet first.  A tree with no infix operator
      at its top has `Top`. */
  function LeftEdge(g: OpTable, e: Expr): (r: int)
    ensures Floor < r <= Top
  {
    match e
    case Binary(l, op, _) => Min(BinaryLevel(g, op), LeftEdge(g, l))
    case Ternary(c, _, _) => Min(TernaryLevel(g), LeftEdge(g, c))
    case _ => Top
  }

  /** The least level an operator after the tree must have to be taken into
      the tree's rightmost operand: the tightest bound on its right spine. */
  function RightBound(g: OpTable, e: Expr): (r: int)
    ensures Floor < r <= Top
  {
    match e
    case Unary(op, x) => Min(PrefixOperandMin(g, op), RightBound(g, x))
    case Binary(_, op, r) => Min(BinaryOperandMin(g, op), RightBound(g, r))
    case Ternary(_, _, f) => Min(TernaryOperandMin(g), RightBound(g, f))
    case _ => Top
  }

  function Min(a: int, b: int): int {
    if a <= b then a else b
  }

  /** A tree the grammar's levels and associativities produce without
      parentheses: every operator is known, no operator on the right spine
      of a left operand would have taken the parent's operator into it, and
      no operator on the left spine of a right operand binds looser than
      the parent allows. */
  predicate WellGrouped(g: OpTable, e: Expr) {
    match e
    case Leaf(_) => true
    case Group(inner) => WellGrouped(g, inner)
    case Unary(op, x) =>
      g.prefix(op).Some? && WellGrouped(g, x) &&
      LeftEdge(g, x) >= PrefixOperandMin(g, op)
    case Binary(l, op, r) =>
      g.binary(op).Some? && WellGrouped(g, l) && WellGrouped(g, r) &&
      RightBound(g, l) > BinaryLevel(g, op) &&
      LeftEdge(g, r) >= BinaryOperandMin(g, op)
    case Ternary(c, t, f) =>
      g.ternary.Some? &&
      WellGrouped(g, c) && WellGrouped(g, t) && WellGrouped(g, f) &&
      RightBound(g, c) > TernaryLevel(g) &&
      LeftEdge(g, f) >= TernaryOperandMin(g)
  }

  /** Whether a token is the `?` of a conditional in this sublanguage. */
  predicate IsQuestion(g: OpTable, t: Token) {
    t == Op(Question) && g.ternary.Some?
  }

  /** The level of the infix operator at the front of the tokens, or
      `NoInfix` when none is there. */
  function NextLevel(g: OpTable, ts: seq<Token>): (r: int)
    ensures r == NoInfix || Floor < r <= 15
    ensures r != NoInfix ==> ts != [] && ts[0].Op? &&
                             (IsQuestion(g, ts[0]) || g.binary(ts[0].sym).Some?)
  {
    if ts == [] || !ts[0].Op? then NoInfix
    else if IsQuestion(g, ts[0]) then TernaryLevel(g)
    else
      match g.binary(ts[0].sym)
      case Some(i) => i.level
      case None => NoInfix
  }

  /** An operand with its prefix operators: a literal, a parenthesised
      expression, or a prefix operator applied to an operand read at the
      operator's bound. */
  function ParsePrefix(g: OpTable, ts: seq<Token>): (r: Option<Parsed>)
    ensures r.Some? ==> |r.value.rest| < |ts|
    ensures r.Some? ==> Flatten(r.value.tree) + r.value.rest == ts
    ensures r.Some? ==> WellGrouped(g, r.value.tree)
    ensures r.Some? ==> LeftEdge(g, r.value.tree) == Top
    ensures r.Some? ==> NextLevel(g, r.value.rest) < RightBound(g, r.value.tree)
    decreases |ts|, 0
  {
    if ts == [] then None
    else match ts[0]
      case Lit(x) => Some(Parsed(Leaf(x), ts[1..]))
      case Op(sym) =>
        if sym == OpenParen then
          match ParseExpr(g, ts[1..], Floor)
          case None => None
          case Some(p) =>
            if p.rest == [] || p.rest[0] != Op(CloseParen) then None
            else
              assert ts == [Op(OpenParen)] + Flatten(p.tree) + [Op(CloseParen)] + p.rest[1..];
              Some(Parsed(Group(p.tree), p.rest[1..]))
        else
          match g.prefix(sym)
          case None => None
          case Some(info) =>
            match ParseExpr(g, ts[1..], OperandMin(info))
            case None => None
            case Some(p) =>
              assert ts == [Op(sym)] + Flatten(p.tree) + p.rest;
              Some(Parsed(Unary(sym, p.tree), p.rest))
  }

  /** Reads an operand, then the infix operators of level at least `min`. */
  function ParseExpr(g: OpTable, ts: seq<Token>, min: int): (r: Option<Parsed>)
    requires Floor <= min <= Top
    ensures r.Some? ==> |r.value.rest| < |ts|
    ensures r.Some? ==> Flatten(r.value.tree) + r.value.rest == ts
    ensures r.Some? ==> WellGrouped(g, r.value.tree)
    ensures r.Some? ==> LeftEdge(g, r.value.tree) >= min
    ensures r.Some? ==> NextLevel(g, r.value.rest) < min
    ensures r.Some? ==> NextLevel(g, r.value.rest) < RightBound(g, r.value.tree)
    decreases |ts|, 4
  {
    match ParsePrefix(g, ts)
    case None => None
    case Some(p) => ParseInfix(g, p.tree, p.rest, min)
  }

  /** Extends `lhs` with the infix operators at the front of `ts` whose
      level is at least `min`; a right operand is read at its operator's
      bound, so a tighter operator after it goes into it and a looser one
      is left to this loop or to an enclosing one. */
  function ParseInfix(g: OpTable, lhs: Expr, ts: seq<Token>, min: int): (r: Option<Parsed>)
    requires Floor <= min <= Top
    requires WellGrouped(g, lhs)
    requires min <= LeftEdge(g, lhs)
    requires NextLevel(g, ts) < RightBound(g, lhs)
    ensures r.Some? ==> |r.value.rest| <= |ts|
    ensures r.Some? ==> Flatten(r.value.tree) + r.value.rest == Flatten(lhs) + ts
    ensures r.Some? ==> WellGrouped(g, r.value.tree)
    ensures r.Some? ==> LeftEdge(g, r.value.tree) >= min
    ensures r.Some? ==> NextLevel(g, r.value.rest) < min
    ensures r.Some? ==> NextLevel(g, r.value.rest) < RightBound(g, r.value.tree)
    decreases |ts|, 3
  {
    if NextLevel(g, ts) < min then Some(Parsed(lhs, ts))
    else if IsQuestion(g, ts[0]) then ParseConditional(g, lhs, ts, min)
    else ParseBinary(g, lhs, ts, min)
  }

  /** `lhs ? t : f` and what follows it: the middle is read with no bound,
      up to the `:`, and the last operand at the conditional's bound. */
  function ParseConditional(g: OpTable, lhs: Expr, ts: seq<Token>, min: int): (r: Option<Parsed>)
    requires Floor <= min <= Top
    requires WellGrouped(g, lhs)
    requires min <= LeftEdge(g, lhs)
    requires NextLevel(g, ts) < RightBound(g, lhs)
    requires NextLevel(g, ts) >= min && IsQuestion(g, ts[0])
    ensures r.Some? ==> |r.value.rest| <= |ts|
    ensures r.Some? ==> Flatten(r.value.tree) + r.value.rest == Flatten(lhs) + ts
    ensures r.Some? ==> WellGrouped(g, r.value.tree)
    ensures r.Some? ==> LeftEdge(g, r.value.tree) >= min
    ensures r.Some? ==> NextLevel(g, r.value.rest) < min
    ensures r.Some? ==> NextLevel(g, r.value.rest) < RightBound(g, r.value.tree)
    decreases |ts|, 2
  {
    match ParseExpr(g, ts[1..], Floor)
    case None => None
    case Some(mid) =>
      if mid.rest == [] || mid.rest[0] != Op(Colon) then None
      else
        match ParseExpr(g, mid.rest[1..], TernaryOperandMin(g))
        case None => None
        case Some(els) =>
          var e := Ternary(lhs, mid.tree, els.tree);
          assert NextLevel(g, ts) == TernaryLevel(g);
          assert WellGrouped(g, e);
          assert LeftEdge(g, e) >= min;
          assert NextLevel(g, els.rest) < RightBound(g, e);
          assert ts == [Op(Question)] + ts[1..];
          assert mid.rest == [Op(Colon)] + mid.rest[1..];
          ConditionalTokens(lhs, mid.tree, els.tree, ts, mid.rest, els.rest);
          ParseInfix(g, e, els.rest, min)
  }

  /** `lhs op rhs` and what follows it, the right operand read at the
      operator's bound. */
  function ParseBinary(g: OpTable, lhs: Expr, ts: seq<Token>, min: int): (r: Option<Parsed>)
    requires Floor <= min <= Top
    requires WellGrouped(g, lhs)
    requires min <= LeftEdge(g, lhs)
    requires NextLevel(g, ts) < RightBound(g, lhs)
    requires NextLevel(g, ts) >= min && !IsQuestion(g, ts[0])
    ensures r.Some? ==> |r.value.rest| <= |ts|
    ensures r.Some? ==> Flatten(r.value.tree) + r.value.rest == Flatten(lhs) + ts
    ensures r.Some? ==> WellGrouped(g, r.value.tree)
    ensures r.Some? ==> LeftEdge(g, r.value.tree) >= min
    ensures r.Some? ==> NextLevel(g, r.value.rest) < min
    ensures r.Some? ==> NextLevel(g, r.value.rest) < RightBound(g, r.value.tree)
    decreases |ts|, 2
  {
    var op := ts[0].sym;
    match ParseExpr(g, ts[1..], BinaryOperandMin(g, op))
    case None => None
    case Some(rhs) =>
      var e := Binary(lhs, op, rhs.tree);
      assert Flatten(e) + rhs.rest == Flatten(lhs) + ts by {
        assert ts == [Op(op)] + Flatten(rhs.tree) + rhs.rest;
      }
      ParseInfix(g, e, rhs.rest, min)
  }

  /** The tokens of a conditional, from those of its parts. */
  lemma ConditionalTokens(c: Expr, t: Expr, f: Expr, ts: seq<Token>, afterThen: seq<Token>, rest: seq<Token>)
    requires ts == [Op(Question)] + Flatten(t) + afterThen
    requires afterThen == [Op(Colon)] + Flatten(f) + rest
    ensures Flatten(Ternary(c, t, f)) + rest == Flatten(c) + ts
  {
  }

  /** Reads a whole token sequence as one expression. */
  function Parse(g: OpTable, ts: seq<Token>): (r: Option<Expr>)
    ensures r.Some? ==> Flatten(r.value) == ts && WellGrouped(g, r.value)
  {
    match ParseExpr(g, ts, Floor)
    case Some(p) =>
      if p.rest == [] then
        assert Flatten(p.tree) + [] == Flatten(p.tree);
        Some(p.tree)
      else None
    case None => None
  }

  // ---------------------------------------------------------------------
  // Every well-grouped tree is read back from its tokens
  // ---------------------------------------------------------------------

  /** Reading the tokens of a well-grouped tree, at a bound its left spine
      allows and followed by tokens its right spine would not take in,
      reads exactly the tree and goes on as the infix loop does after it. */
  lemma {:induction false} ParseExprFlatten(g: OpTable, e: Expr, ts: seq<Token>, min: int)
    requires Floor <= min <= LeftEdge(g, e)
    requires WellGrouped(g, e)
    requires NextLevel(g, ts) < RightBound(g, e)
    ensures ParseExpr(g, Flatten(e) + ts, min) == ParseInfix(g, e, ts, min)
    decreases e, 2
  {
    var s := Flatten(e) + ts;
    match e
    case Leaf(x) =>
      assert s[0] == Lit(x) && s[1..] == ts;
    case Group(inner) =>
      GroupTokens(g, inner, ts);
    case Unary(op, x) =>
      UnaryTokens(g, op, x, ts);
    case Binary(l, op, r) =>
      BinaryTokens(g, l, op, r, ts, min);
    case Ternary(c, t, f) =>
      TernaryTokens(g, c, t, f, ts, min);
  }

  /** When the operator after the tree is too loose for the bound as well,
      reading stops right after the tree. */
  lemma {:induction false} ParseExprExact(g: OpTable, e: Expr, ts: seq<Token>, min: int)
    requires Floor <= min <= LeftEdge(g, e)
    requires WellGrouped(g, e)
    requires NextLevel(g, ts) < RightBound(g, e) && NextLevel(g, ts) < min
    ensures ParseExpr(g, Flatten(e) + ts, min) == Some(Parsed(e, ts))
    decreases e, 3
  {
    ParseExprFlatten(g, e, ts, min);
  }

  /** The parenthesised case: `( inner )` is read as one operand. */
  lemma {:induction false} GroupTokens(g: OpTable, inner: Expr, ts: seq<Token>)
    requires WellGrouped(g, inner)
    ensures ParsePrefix(g, Flatten(Group(inner)) + ts) == Some(Parsed(Group(inner), ts))
    decreases Group(inner), 0
  {
    var s := Flatten(Group(inner)) + ts;
    var after := [Op(CloseParen)] + ts;
    assert s[0] == Op(OpenParen);
    assert s[1..] == Flatten(inner) + after;
    assert NextLevel(g, after) == NoInfix;
    ParseExprExact(g, inner, after, Floor);
    assert after[1..] == ts;
  }

  /** The prefix case: the operand is read at the operator's bound and
      stops where the tree does. */
  lemma {:induction false} UnaryTokens(g: OpTable, op: string, x: Expr, ts: seq<Token>)
    requires WellGrouped(g, Unary(op, x))
    requires NextLevel(g, ts) < RightBound(g, Unary(op, x))
    ensures ParsePrefix(g, Flatten(Unary(op, x)) + ts) == Some(Parsed(Unary(op, x), ts))
    decreases Unary(op, x), 0
  {
    var s := Flatten(Unary(op, x)) + ts;
    assert s[0] == Op(op) && op != OpenParen;
    assert s[1..] == Flatten(x) + ts;
    var q := PrefixOperandMin(g, op);
    ParseExprExact(g, x, ts, q);
  }

  /** The binary case: the left operand is read first and stops before the
      operator; the right operand is read at the operator's bound. */
  lemma {:induction false} BinaryTokens(g: OpTable, l: Expr, op: string, r: Expr, ts: seq<Token>, min: int)
    requires Floor <= min <= LeftEdge(g, Binary(l, op, r))
    requires WellGrouped(g, Binary(l, op, r))
    requires NextLevel(g, ts) < RightBound(g, Binary(l, op, r))
    ensures ParseExpr(g, Flatten(Binary(l, op, r)) + ts, min) == ParseInfix(g, Binary(l, op, r), ts, min)
    decreases Binary(l, op, r), 0
  {
    var e := Binary(l, op, r);
    var after := [Op(op)] + Flatten(r) + ts;
    var q := BinaryOperandMin(g, op);
    assert Flatten(e) + ts == Flatten(l) + after;
    assert NextLevel(g, after) == BinaryLevel(g, op) && !IsQuestion(g, after[0]);
    assert after[1..] == Flatten(r) + ts;
    ParseExprFlatten(g, l, after, min);
    ParseExprExact(g, r, ts, q);
    assert ParseInfix(g, l, after, min) == ParseBinary(g, l, after, min);
    assert ParseBinary(g, l, after, min) == ParseInfix(g, e, ts, min);
  }

  /** The conditional case: the condition stops before `?`, and the rest
      is read as `ConditionalStep` says. */
  lemma {:induction false} TernaryTokens(g: OpTable, c: Expr, t: Expr, f: Expr, ts: seq<Token>, min: int)
    requires Floor <= min <= LeftEdge(g, Ternary(c, t, f))
    requires WellGrouped(g, Ternary(c, t, f))
    requires NextLevel(g, ts) < RightBound(g, Ternary(c, t, f))
    ensures ParseExpr(g, Flatten(Ternary(c, t, f)) + ts, min) == ParseInfix(g, Ternary(c, t, f), ts, min)
    decreases Ternary(c, t, f), 1
  {
    var after := [Op(Question)] + Flatten(t) + [Op(Colon)] + Flatten(f) + ts;
    assert Flatten(Ternary(c, t, f)) + ts == Flatten(c) + after;
    assert NextLevel(g, after) == TernaryLevel(g) && IsQuestion(g, after[0]);
    ParseExprFlatten(g, c, after, min);
    assert ParseInfix(g, c, after, min) == ParseConditional(g, c, after, min);
    ConditionalStep(g, c, t, f, ts, after, min);
  }

  /** After the condition, the middle stops before `:` and the last operand
      where the tree does. */
  lemma {:induction false} ConditionalStep(g: OpTable, c: Expr, t: Expr, f: Expr, ts: seq<Token>, after: seq<Token>, min: int)
    requires Floor <= min <= LeftEdge(g, Ternary(c, t, f))
    requires WellGrouped(g, Ternary(c, t, f))
    requires NextLevel(g, ts) < RightBound(g, Ternary(c, t, f))
    requires after == [Op(Question)] + Flatten(t) + [Op(Colon)] + Flatten(f) + ts
    requires NextLevel(g, after) >= min && IsQuestion(g, after[0])
    ensures ParseConditional(g, c, after, min) == ParseInfix(g, Ternary(c, t, f), ts, min)
    decreases Ternary(c, t, f), 0
  {
    var afterThen := [Op(Colon)] + Flatten(f) + ts;
    var q := TernaryOperandMin(g);
    assert after[1..] == Flatten(t) + afterThen;
    assert afterThen[1..] == Flatten(f) + ts;
    assert ParseExpr(g, after[1..], Floor) == Some(Parsed(t, afterThen)) by {
      assert NextLevel(g, afterThen) == NoInfix;
      ParseExprExact(g, t, afterThen, Floor);
    }
    assert ParseExpr(g, afterThen[1..], q) == Some(Parsed(f, ts)) by {
      ParseExprExact(g, f, ts, q);
    }
  }

  /** Every well-grouped tree is read back from its tokens. */
  lemma ParseComplete(g: OpTable, e: Expr)
    requires WellGrouped(g, e)
    ensures Parse(g, Flatten(e)) == Some(e)
  {
    assert Flatten(e) + [] == Flatten(e);
    ParseExprFlatten(g, e, [], Floor);
  }

  /** Two well-grouped trees with the same tokens are the same tree: the
      levels and associativities leave no choice of grouping. */
  lemma GroupingUnique(g: OpTable, e1: Expr, e2: Expr)
    requires WellGrouped(g, e1) && WellGrouped(g, e2)
    requires Flatten(e1) == Flatten(e2)
    ensures e1 == e2
  {
    ParseComplete(g, e1);
    ParseComplete(g, e2);
  }

  /** A sequence of tokens is read exactly when it is the tokens of a
      well-grouped tree, and then as that tree. */
  lemma ParseIff(g: OpTable, ts: seq<Token>, e: Expr)
    ensures Parse(g, ts) == Some(e) <==> WellGrouped(g, e) && Flatten(e) == ts
  {
    if WellGrouped(g, e) && Flatten(e) == ts { ParseComplete(g, e); }
  }
}
