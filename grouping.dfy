/**
 * What the grammar's levels mean for concrete operator sequences: which
 * operator binds tighter, how operators of one level associate, where the
 * conditional and the prefix operators sit, and how pipelines nest in
 * lists.  Each grouping is stated as the one tree `Parse` reads.
 */
module Grouping {
  import opened Wrappers
  import opened Operators
  import opened Precedence

  // ---------------------------------------------------------------------
  // General laws
  // ---------------------------------------------------------------------

  /** In a well-grouped binary node, a binary left operand binds at least
      as tight as the node, a binary right operand strictly tighter (left
      associativity), and a conditional operand only occurs below an
      operator looser than the conditional. */
  lemma OperandLevels(lang: Lang, l: Expr, op: string, r: Expr)
    requires WellGrouped(TableOf(lang), Binary(l, op, r))
    ensures l.Binary? ==> BinaryLevel(TableOf(lang), l.op) >= BinaryLevel(TableOf(lang), op)
    ensures r.Binary? ==> BinaryLevel(TableOf(lang), r.op) > BinaryLevel(TableOf(lang), op)
    ensures l.Ternary? || r.Ternary? ==> BinaryLevel(TableOf(lang), op) < TernaryLevel(TableOf(lang))
  {
    if l.Binary? {
      assert RightBound(TableOf(lang), l) <= BinaryOperandMin(TableOf(lang), l.op);
    }
    if l.Ternary? {
      assert RightBound(TableOf(lang), l) <= TernaryOperandMin(TableOf(lang));
    }
  }

  /** The condition of a conditional binds tighter than `?:`, and its last
      operand is no looser. */
  lemma ConditionalOperandLevels(lang: Lang, c: Expr, t: Expr, f: Expr)
    requires WellGrouped(TableOf(lang), Ternary(c, t, f))
    ensures c.Binary? ==> BinaryLevel(TableOf(lang), c.op) >= TernaryLevel(TableOf(lang))
    ensures !c.Ternary?
    ensures f.Binary? ==> BinaryLevel(TableOf(lang), f.op) >= TernaryLevel(TableOf(lang))
  {
    if c.Binary? {
      assert RightBound(TableOf(lang), c) <= BinaryOperandMin(TableOf(lang), c.op);
    }
    if c.Ternary? {
      assert RightBound(TableOf(lang), c) <= TernaryOperandMin(TableOf(lang));
    }
  }

  /** An arithmetic prefix operator applies to an operand with no infix
      operator at its top: unary operators bind tightest. */
  lemma ArithUnaryOperand(op: string, x: Expr)
    requires WellGrouped(TableOf(Arith), Unary(op, x))
    ensures !x.Binary? && !x.Ternary?
  {
    assert PrefixOperandMin(TableOf(Arith), op) == 16;
  }

  /** A `test_operator` such as `-f` applies to an operand with no binary
      operator at its top, while the operand of `!` may hold any. */
  lemma TestUnaryOperand(op: string, x: Expr)
    requires WellGrouped(TableOf(Test), Unary(op, x))
    ensures op != "!" ==> !x.Binary?
  {
    if op != "!" {
      assert PrefixOperandMin(TableOf(Test), op) == 6;
    }
  }

  /** `! x` never stands as the left operand of a binary test operator: the
      operator is taken into the operand of `!` instead. */
  lemma NotIsNeverLeftOperand(l: Expr, op: string, r: Expr)
    requires WellGrouped(TableOf(Test), Binary(l, op, r))
    ensures !(l.Unary? && l.op == "!")
  {
  }

  /** Three operands and two binary operators: the tighter operator groups
      first, and between equals the left one does. */
  lemma ThreeOperands(lang: Lang, a: string, o1: string, b: string, o2: string, c: string)
    requires BinaryOp(lang, o1).Some? && BinaryOp(lang, o2).Some?
    ensures Parse(TableOf(lang), [Lit(a), Op(o1), Lit(b), Op(o2), Lit(c)]) ==
            Some(if BinaryOp(lang, o1).value.level < BinaryOp(lang, o2).value.level
                 then Binary(Leaf(a), o1, Binary(Leaf(b), o2, Leaf(c)))
                 else Binary(Binary(Leaf(a), o1, Leaf(b)), o2, Leaf(c)))
  {
    var ts := [Lit(a), Op(o1), Lit(b), Op(o2), Lit(c)];
    TableAssociativity(lang, o1);
    TableAssociativity(lang, o2);
    if BinaryOp(lang, o1).value.level < BinaryOp(lang, o2).value.level {
      var e := Binary(Leaf(a), o1, Binary(Leaf(b), o2, Leaf(c)));
      assert Flatten(Binary(Leaf(b), o2, Leaf(c))) == [Lit(b), Op(o2), Lit(c)];
      assert Flatten(e) == ts;
      ParseComplete(TableOf(lang), e);
    } else {
      var e := Binary(Binary(Leaf(a), o1, Leaf(b)), o2, Leaf(c));
      assert Flatten(Binary(Leaf(a), o1, Leaf(b))) == [Lit(a), Op(o1), Lit(b)];
      assert Flatten(e) == ts;
      ParseComplete(TableOf(lang), e);
    }
  }

  /** A binary operator before a conditional: `a op b ? c : d` puts the
      conditional inside the right operand when `op` is looser than `?:`,
      and otherwise makes `a op b` the condition. */
  lemma BinaryBeforeConditional(lang: Lang, a: string, op: string, b: string, c: string, d: string)
    requires BinaryOp(lang, op).Some? && TernaryOp(lang).Some?
    ensures Parse(TableOf(lang), [Lit(a), Op(op), Lit(b), Op(Question), Lit(c), Op(Colon), Lit(d)]) ==
            Some(if BinaryOp(lang, op).value.level < TernaryOp(lang).value.level
                 then Binary(Leaf(a), op, Ternary(Leaf(b), Leaf(c), Leaf(d)))
                 else Ternary(Binary(Leaf(a), op, Leaf(b)), Leaf(c), Leaf(d)))
  {
    var ts := [Lit(a), Op(op), Lit(b), Op(Question), Lit(c), Op(Colon), Lit(d)];
    TableAssociativity(lang, op);
    if BinaryOp(lang, op).value.level < TernaryOp(lang).value.level {
      var e := Binary(Leaf(a), op, Ternary(Leaf(b), Leaf(c), Leaf(d)));
      assert Flatten(e.right) == [Lit(b), Op(Question), Lit(c), Op(Colon), Lit(d)];
      assert Flatten(e) == ts;
      ParseComplete(TableOf(lang), e);
    } else {
      var e := Ternary(Binary(Leaf(a), op, Leaf(b)), Leaf(c), Leaf(d));
      assert Flatten(e.cond) == [Lit(a), Op(op), Lit(b)];
      assert Flatten(e) == ts;
      ParseComplete(TableOf(lang), e);
    }
  }

  /** A binary operator after a conditional: `a ? b : c op d` takes
      `c op d` as the last operand when `op` is no looser than `?:`, and
      otherwise applies `op` to the whole conditional. */
  lemma ConditionalBeforeBinary(lang: Lang, a: string, b: string, c: string, op: string, d: string)
    requires BinaryOp(lang, op).Some? && TernaryOp(lang).Some?
    ensures Parse(TableOf(lang), [Lit(a), Op(Question), Lit(b), Op(Colon), Lit(c), Op(op), Lit(d)]) ==
            Some(if BinaryOp(lang, op).value.level >= TernaryOp(lang).value.level
                 then Ternary(Leaf(a), Leaf(b), Binary(Leaf(c), op, Leaf(d)))
                 else Binary(Ternary(Leaf(a), Leaf(b), Leaf(c)), op, Leaf(d)))
  {
    var ts := [Lit(a), Op(Question), Lit(b), Op(Colon), Lit(c), Op(op), Lit(d)];
    TableAssociativity(lang, op);
    if BinaryOp(lang, op).value.level >= TernaryOp(lang).value.level {
      var e := Ternary(Leaf(a), Leaf(b), Binary(Leaf(c), op, Leaf(d)));
      assert Flatten(e.elseBranch) == [Lit(c), Op(op), Lit(d)];
      assert Flatten(e) == ts;
      ParseComplete(TableOf(lang), e);
    } else {
      var e := Binary(Ternary(Leaf(a), Leaf(b), Leaf(c)), op, Leaf(d));
      assert Flatten(e.left) == [Lit(a), Op(Question), Lit(b), Op(Colon), Lit(c)];
      assert Flatten(e) == ts;
      ParseComplete(TableOf(lang), e);
    }
  }

  // ---------------------------------------------------------------------
  // Arithmetic
  // ---------------------------------------------------------------------

  /** `a + b * c` is `a + (b * c)`. */
  lemma ArithMulOverAdd(a: string, b: string, c: string)
    ensures Parse(TableOf(Arith), [Lit(a), Op("+"), Lit(b), Op("*"), Lit(c)]) ==
            Some(Binary(Leaf(a), "+", Binary(Leaf(b), "*", Leaf(c))))
  {
    assert BinaryOp(Arith, "+") == Some(OpInfo(13, false));
    assert BinaryOp(Arith, "*") == Some(OpInfo(14, false));
    ThreeOperands(Arith, a, "+", b, "*", c);
  }

  /** `a | b ^ c` is `a | (b ^ c)`, and `a ^ b & c` is `(a ^ b) & c`: in
      this grammar `^` binds tighter than `&`. */
  lemma ArithXorAboveAnd(a: string, b: string, c: string)
    ensures Parse(TableOf(Arith), [Lit(a), Op("|"), Lit(b), Op("^"), Lit(c)]) ==
            Some(Binary(Leaf(a), "|", Binary(Leaf(b), "^", Leaf(c))))
    ensures Parse(TableOf(Arith), [Lit(a), Op("^"), Lit(b), Op("&"), Lit(c)]) ==
            Some(Binary(Binary(Leaf(a), "^", Leaf(b)), "&", Leaf(c)))
  {
    assert BinaryOp(Arith, "|") == Some(OpInfo(7, false));
    assert BinaryOp(Arith, "^") == Some(OpInfo(9, false));
    ThreeOperands(Arith, a, "|", b, "^", c);
    assert BinaryOp(Arith, "&") == Some(OpInfo(8, false));
    ThreeOperands(Arith, a, "^", b, "&", c);
  }

  /** `a - b + c` is `(a - b) + c`. */
  lemma ArithLeftAssociative(a: string, b: string, c: string)
    ensures Parse(TableOf(Arith), [Lit(a), Op("-"), Lit(b), Op("+"), Lit(c)]) ==
            Some(Binary(Binary(Leaf(a), "-", Leaf(b)), "+", Leaf(c)))
  {
    assert BinaryOp(Arith, "-") == Some(OpInfo(13, false));
    assert BinaryOp(Arith, "+") == Some(OpInfo(13, false));
    ThreeOperands(Arith, a, "-", b, "+", c);
  }

  /** `a = b = c` is `(a = b) = c`: assignment too groups to the left
      here. */
  lemma ArithAssignLeftAssociative(a: string, b: string, c: string)
    ensures Parse(TableOf(Arith), [Lit(a), Op("="), Lit(b), Op("="), Lit(c)]) ==
            Some(Binary(Binary(Leaf(a), "=", Leaf(b)), "=", Leaf(c)))
  {
    assert BinaryOp(Arith, "=") == Some(OpInfo(3, false));
    ThreeOperands(Arith, a, "=", b, "=", c);
  }

  /** `a , b += c` is `a , (b += c)`: the comma is loosest. */
  lemma ArithCommaLoosest(a: string, b: string, c: string)
    ensures Parse(TableOf(Arith), [Lit(a), Op(","), Lit(b), Op("+="), Lit(c)]) ==
            Some(Binary(Leaf(a), ",", Binary(Leaf(b), "+=", Leaf(c))))
  {
    assert BinaryOp(Arith, ",") == Some(OpInfo(1, false));
    assert BinaryOp(Arith, "+=") == Some(OpInfo(2, false));
    ThreeOperands(Arith, a, ",", b, "+=", c);
  }

  /** `a ? b : c ? d : e` is `a ? b : (c ? d : e)`. */
  lemma ConditionalRightAssociative(a: string, b: string, c: string, d: string, e: string)
    ensures Parse(TableOf(Arith), [Lit(a), Op("?"), Lit(b), Op(":"), Lit(c),
                          Op("?"), Lit(d), Op(":"), Lit(e)]) ==
            Some(Ternary(Leaf(a), Leaf(b), Ternary(Leaf(c), Leaf(d), Leaf(e))))
  {
    var tree := Ternary(Leaf(a), Leaf(b), Ternary(Leaf(c), Leaf(d), Leaf(e)));
    assert Flatten(tree.elseBranch) == [Lit(c), Op("?"), Lit(d), Op(":"), Lit(e)];
    assert Flatten(tree) == [Lit(a), Op("?"), Lit(b), Op(":"), Lit(c),
                          Op("?"), Lit(d), Op(":"), Lit(e)];
    ParseComplete(TableOf(Arith), tree);
  }

  /** `a || b ? c : d` is `(a || b) ? c : d` and `a ? b : c || d` is
      `a ? b : (c || d)`: `?:` is looser than `||`. */
  lemma ConditionalBelowOr(a: string, b: string, c: string, d: string)
    ensures Parse(TableOf(Arith), [Lit(a), Op("||"), Lit(b), Op("?"), Lit(c), Op(":"), Lit(d)]) ==
            Some(Ternary(Binary(Leaf(a), "||", Leaf(b)), Leaf(c), Leaf(d)))
    ensures Parse(TableOf(Arith), [Lit(a), Op("?"), Lit(b), Op(":"), Lit(c), Op("||"), Lit(d)]) ==
            Some(Ternary(Leaf(a), Leaf(b), Binary(Leaf(c), "||", Leaf(d))))
  {
    assert BinaryOp(Arith, "||") == Some(OpInfo(5, false));
    BinaryBeforeConditional(Arith, a, "||", b, c, d);
    ConditionalBeforeBinary(Arith, a, b, c, "||", d);
  }

  /** `a = b ? c : d` is `a = (b ? c : d)` and `a ? b : c = d` is
      `(a ? b : c) = d`: `?:` is tighter than `=`. */
  lemma ConditionalAboveAssign(a: string, b: string, c: string, d: string)
    ensures Parse(TableOf(Arith), [Lit(a), Op("="), Lit(b), Op("?"), Lit(c), Op(":"), Lit(d)]) ==
            Some(Binary(Leaf(a), "=", Ternary(Leaf(b), Leaf(c), Leaf(d))))
    ensures Parse(TableOf(Arith), [Lit(a), Op("?"), Lit(b), Op(":"), Lit(c), Op("="), Lit(d)]) ==
            Some(Binary(Ternary(Leaf(a), Leaf(b), Leaf(c)), "=", Leaf(d)))
  {
    assert BinaryOp(Arith, "=") == Some(OpInfo(3, false));
    BinaryBeforeConditional(Arith, a, "=", b, c, d);
    ConditionalBeforeBinary(Arith, a, b, c, "=", d);
  }

  /** `- a * b` is `(- a) * b`. */
  lemma ArithUnaryTightest(a: string, b: string)
    ensures Parse(TableOf(Arith), [Op("-"), Lit(a), Op("*"), Lit(b)]) ==
            Some(Binary(Unary("-", Leaf(a)), "*", Leaf(b)))
  {
    var tree := Binary(Unary("-", Leaf(a)), "*", Leaf(b));
    assert PrefixOp(Arith, "-") == Some(OpInfo(15, false));
    assert BinaryOp(Arith, "*") == Some(OpInfo(14, false));
    assert Flatten(tree.left) == [Op("-"), Lit(a)];
    assert Flatten(tree) == [Op("-"), Lit(a), Op("*"), Lit(b)];
    ParseComplete(TableOf(Arith), tree);
  }

  /** A parenthesised operation is one operand, whatever the levels of the
      operators inside and after it: `( a o1 b ) o2 c` is
      `(a o1 b) o2 c` even where `o1` is looser than `o2`. */
  lemma GroupIsOperand(g: OpTable, a: string, o1: string, b: string, o2: string, c: string)
    requires g.binary(o1).Some? && g.binary(o2).Some?
    ensures Parse(g, [Op(OpenParen), Lit(a), Op(o1), Lit(b), Op(CloseParen), Op(o2), Lit(c)]) ==
            Some(Binary(Group(Binary(Leaf(a), o1, Leaf(b))), o2, Leaf(c)))
  {
    var inner := Binary(Leaf(a), o1, Leaf(b));
    var tree := Binary(Group(inner), o2, Leaf(c));
    assert InRange(g.binary(o1).value) && InRange(g.binary(o2).value);
    assert BinaryLevel(g, o1) <= 15 && BinaryOperandMin(g, o1) <= 16;
    assert WellGrouped(g, Leaf(a)) && WellGrouped(g, Leaf(b));
    assert WellGrouped(g, inner);
    assert WellGrouped(g, Group(inner));
    assert Flatten(inner) == [Lit(a), Op(o1), Lit(b)];
    assert Flatten(Group(inner)) == [Op(OpenParen), Lit(a), Op(o1), Lit(b), Op(CloseParen)];
    assert Flatten(tree) == [Op(OpenParen), Lit(a), Op(o1), Lit(b), Op(CloseParen), Op(o2), Lit(c)];
    ParseComplete(g, tree);
  }

  /** `( a + b ) * c` keeps the parenthesised sum as one operand. */
  lemma ArithParentheses(a: string, b: string, c: string)
    ensures Parse(TableOf(Arith), [Op("("), Lit(a), Op("+"), Lit(b), Op(")"), Op("*"), Lit(c)]) ==
            Some(Binary(Group(Binary(Leaf(a), "+", Leaf(b))), "*", Leaf(c)))
  {
    assert BinaryOp(Arith, "+") == Some(OpInfo(13, false));
    assert BinaryOp(Arith, "*") == Some(OpInfo(14, false));
    GroupIsOperand(TableOf(Arith), a, "+", b, "*", c);
  }

  // ---------------------------------------------------------------------
  // Test expressions
  // ---------------------------------------------------------------------

  /** `-f x && -d y` is `(-f x) && (-d y)`. */
  lemma TestUnaryOperators(x: string, y: string)
    ensures Parse(TableOf(Test), [Op("-f"), Lit(x), Op("&&"), Op("-d"), Lit(y)]) ==
            Some(Binary(Unary("-f", Leaf(x)), "&&", Unary("-d", Leaf(y))))
  {
    var tree := Binary(Unary("-f", Leaf(x)), "&&", Unary("-d", Leaf(y)));
    assert PrefixOp(Test, "-f") == Some(OpInfo(5, false));
    assert PrefixOp(Test, "-d") == Some(OpInfo(5, false));
    assert BinaryOp(Test, "&&") == Some(OpInfo(2, false));
    assert Flatten(tree.left) == [Op("-f"), Lit(x)];
    assert Flatten(tree.right) == [Op("-d"), Lit(y)];
    assert Flatten(tree) == [Op("-f"), Lit(x), Op("&&"), Op("-d"), Lit(y)];
    ParseComplete(TableOf(Test), tree);
  }

  /** `a || b && c` is `a || (b && c)`, and `a -o b -a c` is
      `a -o (b -a c)`. */
  lemma TestAndOverOr(a: string, b: string, c: string)
    ensures Parse(TableOf(Test), [Lit(a), Op("||"), Lit(b), Op("&&"), Lit(c)]) ==
            Some(Binary(Leaf(a), "||", Binary(Leaf(b), "&&", Leaf(c))))
    ensures Parse(TableOf(Test), [Lit(a), Op("-o"), Lit(b), Op("-a"), Lit(c)]) ==
            Some(Binary(Leaf(a), "-o", Binary(Leaf(b), "-a", Leaf(c))))
  {
    assert BinaryOp(Test, "||") == Some(OpInfo(1, false));
    assert BinaryOp(Test, "&&") == Some(OpInfo(2, false));
    ThreeOperands(Test, a, "||", b, "&&", c);
    assert BinaryOp(Test, "-o") == Some(OpInfo(1, false));
    assert BinaryOp(Test, "-a") == Some(OpInfo(2, false));
    ThreeOperands(Test, a, "-o", b, "-a", c);
  }

  /** `a = b -lt c` is `a = (b -lt c)`: relational tests bind tighter than
      equality tests. */
  lemma TestRelationalOverEquality(a: string, b: string, c: string)
    ensures Parse(TableOf(Test), [Lit(a), Op("="), Lit(b), Op("-lt"), Lit(c)]) ==
            Some(Binary(Leaf(a), "=", Binary(Leaf(b), "-lt", Leaf(c))))
  {
    assert BinaryOp(Test, "=") == Some(OpInfo(3, false));
    assert BinaryOp(Test, "-lt") == Some(OpInfo(4, false));
    ThreeOperands(Test, a, "=", b, "-lt", c);
  }

  /** `a == b && c` is `a == (b && c)`: the `==` alternative has no parse
      level of its own, so it is looser than every numbered one. */
  lemma TestDoubleEqualsLoosest(a: string, b: string, c: string)
    ensures Parse(TableOf(Test), [Lit(a), Op("=="), Lit(b), Op("&&"), Lit(c)]) ==
            Some(Binary(Leaf(a), "==", Binary(Leaf(b), "&&", Leaf(c))))
  {
    assert BinaryOp(Test, "==") == Some(OpInfo(0, false));
    assert BinaryOp(Test, "&&") == Some(OpInfo(2, false));
    ThreeOperands(Test, a, "==", b, "&&", c);
  }

  /** `! ! x` is `!(! x)`. */
  lemma TestNotRightAssociative(x: string)
    ensures Parse(TableOf(Test), [Op("!"), Op("!"), Lit(x)]) == Some(Unary("!", Unary("!", Leaf(x))))
  {
    var tree := Unary("!", Unary("!", Leaf(x)));
    assert PrefixOp(Test, "!") == Some(OpInfo(0, true));
    assert Flatten(tree.operand) == [Op("!"), Lit(x)];
    assert Flatten(tree) == [Op("!"), Op("!"), Lit(x)];
    ParseComplete(TableOf(Test), tree);
  }

  /** `! a && b` is `!(a && b)`: at level 0 and associating to the right,
      `!` takes the whole conjunction as its operand. */
  lemma TestNotTakesConjunction(a: string, b: string)
    ensures Parse(TableOf(Test), [Op("!"), Lit(a), Op("&&"), Lit(b)]) ==
            Some(Unary("!", Binary(Leaf(a), "&&", Leaf(b))))
  {
    var tree := Unary("!", Binary(Leaf(a), "&&", Leaf(b)));
    assert PrefixOp(Test, "!") == Some(OpInfo(0, true));
    assert BinaryOp(Test, "&&") == Some(OpInfo(2, false));
    assert Flatten(tree.operand) == [Lit(a), Op("&&"), Lit(b)];
    assert Flatten(tree) == [Op("!"), Lit(a), Op("&&"), Lit(b)];
    ParseComplete(TableOf(Test), tree);
  }

  // ---------------------------------------------------------------------
  // Statements: pipeline and list
  // ---------------------------------------------------------------------

  /** `&&` and `||` of a `list` share one level and group to the left:
      `a && b || c` is `list(list(a, &&, b), ||, c)`, and likewise in the
      other order. */
  lemma ListLeftToRight(a: string, b: string, c: string, o1: string, o2: string)
    requires o1 in {"&&", "||"} && o2 in {"&&", "||"}
    ensures Parse(TableOf(Stmt), [Lit(a), Op(o1), Lit(b), Op(o2), Lit(c)]) ==
            Some(Binary(Binary(Leaf(a), o1, Leaf(b)), o2, Leaf(c)))
  {
    ThreeOperands(Stmt, a, o1, b, o2, c);
  }

  /** A `pipeline` binds tighter than a `list` on either side of it:
      `a | b && c` is `list(pipeline(a, b), &&, c)` and `a && b | c` is
      `list(a, &&, pipeline(b, c))`. */
  lemma PipelineInsideList(a: string, b: string, c: string, p: string, o: string)
    requires p in {"|", "|&"} && o in {"&&", "||"}
    ensures Parse(TableOf(Stmt), [Lit(a), Op(p), Lit(b), Op(o), Lit(c)]) ==
            Some(Binary(Binary(Leaf(a), p, Leaf(b)), o, Leaf(c)))
    ensures Parse(TableOf(Stmt), [Lit(a), Op(o), Lit(b), Op(p), Lit(c)]) ==
            Some(Binary(Leaf(a), o, Binary(Leaf(b), p, Leaf(c))))
  {
    ThreeOperands(Stmt, a, p, b, o, c);
    ThreeOperands(Stmt, a, o, b, p, c);
  }

  /** Pipelines group to the left: `a | b |& c` is
      `pipeline(pipeline(a, b), c)`. */
  lemma PipelineLeftAssociative(a: string, b: string, c: string)
    ensures Parse(TableOf(Stmt), [Lit(a), Op("|"), Lit(b), Op("|&"), Lit(c)]) ==
            Some(Binary(Binary(Leaf(a), "|", Leaf(b)), "|&", Leaf(c)))
  {
    assert BinaryOp(Stmt, "|") == Some(OpInfo(1, false));
    assert BinaryOp(Stmt, "|&") == Some(OpInfo(1, false));
    ThreeOperands(Stmt, a, "|", b, "|&", c);
  }
}
