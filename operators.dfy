/**
 * The precedence tables of the grammar's three operator sublanguages: the
 * arithmetic of `(( ))` (`binary_arithmetic_expression`,
 * `ternary_arithmetic_expression`, `unary_arithmetic_expression`), the test
 * expressions of `[ ]` and `[[ ]]` (`binary_expression`,
 * `unary_expression`) and the statement operators (`pipeline`, `list`).
 *
 * A level is the number the grammar attaches with `prec`; an alternative
 * wrapped only in `prec.left` or `prec.right` has level 0.  A higher level
 * binds tighter.
 */
module Operators {
  import opened Wrappers
  import Tokens

  datatype Lang = Arith | Test | Stmt

  /** The level of an operator and whether it associates to the right. */
  datatype OpInfo = OpInfo(level: int, right: bool)

  /** Below every level in the tables. */
  const Floor: int := -10
  /** Above every level in the tables. */
  const Top: int := 100
  /** The level reported where no infix operator follows. */
  const NoInfix: int := Floor - 1

  /** The least level an operator's right operand may have at its top, with
      no parentheses: the operator's own level when it associates to the
      right, one more when it associates to the left. */
  function OperandMin(info: OpInfo): int {
    if info.right then info.level else info.level + 1
  }

  /** A level of the tables. */
  predicate InRange(info: OpInfo) {
    Floor < info.level <= 15
  }

  /** Binary arithmetic operators, all associating to the left. */
  function ArithBinary(op: string): (r: Option<OpInfo>)
    ensures r.Some? ==> InRange(r.value) && !r.value.right
  {
    if op == "," then Some(OpInfo(1, false))
    else if op in {"+=", "-=", "*=", "/=", "%=", "<<=", ">>=", "|=", "^=", "&="} then Some(OpInfo(2, false))
    else if op == "=" then Some(OpInfo(3, false))
    else if op == "||" then Some(OpInfo(5, false))
    else if op == "&&" then Some(OpInfo(6, false))
    else if op == "|" then Some(OpInfo(7, false))
    else if op == "&" then Some(OpInfo(8, false))
    else if op == "^" then Some(OpInfo(9, false))
    else if op in {"==", "!="} then Some(OpInfo(10, false))
    else if op in {"<", "<=", ">", ">="} then Some(OpInfo(11, false))
    else if op in {"<<", ">>"} then Some(OpInfo(12, false))
    else if op in {"+", "-"} then Some(OpInfo(13, false))
    else if op in {"*", "/", "%"} then Some(OpInfo(14, false))
    else None
  }

  /** Binary test operators, all associating to the left.  `==` and `=~`
      carry their level 4 only inside `token(...)`, which orders tokens for
      the lexer; as a parse rule their alternative has level 0. */
  function TestBinary(op: string): (r: Option<OpInfo>)
    ensures r.Some? ==> InRange(r.value) && !r.value.right
  {
    if op in {"||", "-o"} then Some(OpInfo(1, false))
    else if op in {"&&", "-a"} then Some(OpInfo(2, false))
    else if op in {"=", "!=", "-eq", "-ne"} then Some(OpInfo(3, false))
    else if op in {"-nt", "-ot", "-ef", "<", "<=", ">", ">=", "-lt", "-le", "-gt", "-ge"} then Some(OpInfo(4, false))
    else if op in {"==", "=~"} then Some(OpInfo(0, false))
    else None
  }

  /** Statement operators: `pipeline` at level 1 and `list` at level -1,
      both associating to the left. */
  function StmtBinary(op: string): (r: Option<OpInfo>)
    ensures r.Some? ==> InRange(r.value) && !r.value.right
  {
    if op in {"|", "|&"} then Some(OpInfo(1, false))
    else if op in {"&&", "||"} then Some(OpInfo(-1, false))
    else None
  }

  function BinaryOp(lang: Lang, op: string): (r: Option<OpInfo>)
    ensures r.Some? ==> InRange(r.value) && !r.value.right
  {
    match lang
    case Arith => ArithBinary(op)
    case Test => TestBinary(op)
    case Stmt => StmtBinary(op)
  }

  /** Prefix operators.  Arithmetic ones are at level 15; in tests a
      `test_operator` is at level 5 and `!` associates to the right at
      level 0.  Statements have none here. */
  function PrefixOp(lang: Lang, op: string): (r: Option<OpInfo>)
    ensures r.Some? ==> InRange(r.value)
  {
    match lang
    case Arith =>
      if op in {"-", "+", "!", "~", "++", "--"} then Some(OpInfo(15, false)) else None
    case Test =>
      if op == "!" then Some(OpInfo(0, true))
      else if Tokens.IsTestOperator(op) then Some(OpInfo(5, false))
      else None
    case Stmt => None
  }

  /** The conditional `c ? t : e`: only arithmetic has it, at level 4,
      associating to the right. */
  function TernaryOp(lang: Lang): (r: Option<OpInfo>)
    ensures r.Some? ==> InRange(r.value) && r.value.right
  {
    if lang == Arith then Some(OpInfo(4, true)) else None
  }

  const Question: string := "?"
  const Colon: string := ":"
  const OpenParen: string := "("
  const CloseParen: string := ")"

  /** A precedence table as the parser consults it: the binary and prefix
      operators with their levels, and the conditional if the sublanguage
      has one. */
  datatype RawTable = RawTable(
    binary: string -> Option<OpInfo>,
    prefix: string -> Option<OpInfo>,
    ternary: Option<OpInfo>)

  /** Every level lies strictly between `Floor` and `Top`, and the markers
      of the conditional and the parentheses are neither binary nor prefix
      operators, so an operator token is read one way only. */
  ghost predicate ValidTable(t: RawTable) {
    (forall op :: t.binary(op).Some? ==> InRange(t.binary(op).value)) &&
    (forall op :: t.prefix(op).Some? ==> InRange(t.prefix(op).value)) &&
    (t.ternary.Some? ==> InRange(t.ternary.value)) &&
    t.binary(Question).None? && t.binary(Colon).None? &&
    t.binary(OpenParen).None? && t.binary(CloseParen).None? &&
    t.prefix(OpenParen).None?
  }

  type OpTable = t: RawTable | ValidTable(t)
    witness RawTable(_ => None, _ => None, None)

  /** The table of a sublanguage of the grammar. */
  function TableOf(lang: Lang): OpTable {
    RawTable(op => BinaryOp(lang, op), op => PrefixOp(lang, op), TernaryOp(lang))
  }

  /** In every table of the grammar the binary operators associate to the
      left, and the conditional, where there is one, to the right. */
  lemma TableAssociativity(lang: Lang, op: string)
    ensures TableOf(lang).binary(op).Some? ==> !TableOf(lang).binary(op).value.right
    ensures TableOf(lang).ternary.Some? ==> TableOf(lang).ternary.value.right
  {
  }
}
