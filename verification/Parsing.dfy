/** The grammar the Pratt parser of src/compiler.c accepts, as a function from tokens to trees.

    The source parses and emits code in one pass and never builds a tree; this function is the
    two-pass specification that the single pass is proved against (module Compiling). Every
    function consumes a prefix of `ts` and returns the tokens it left. */
module Parsing {
  import opened Syntax

  datatype Parsed<+T> = Parsed(value: T, rest: seq<Token>) | Bad

  const MAX_ARGS := 255

  function ParsePrecedence(ts: seq<Token>, p: nat): (r: Parsed<Expr>)
    ensures r.Parsed? ==> |r.rest| < |ts|
    decreases |ts|, 3
  {
    var ts := SkipNewlines(ts);
    match ParsePrefix(ts, p <= PREC_ASSIGNMENT)
    case Bad => Bad
    case Parsed(e, rest) => ParseInfix(e, rest, p)
  }

  /** An expression is a parse at assignment level. */
  function ParseExpression(ts: seq<Token>): (r: Parsed<Expr>)
    ensures r.Parsed? ==> |r.rest| < |ts|
    decreases |ts|, 4
  {
    ParsePrecedence(ts, PREC_ASSIGNMENT)
  }

  function PrefixOp(t: Token): (r: UnOp)
    requires IsPrefixOp(t)
  {
    if t == TBin(Minus) then Neg else if t == TTilde then BitNot else Not
  }

  predicate IsPrefixOp(t: Token) {
    t == TBin(Minus) || t == TBang || t == TNot || t == TTilde
  }

  function ParsePrefix(ts: seq<Token>, canAssign: bool): (r: Parsed<Expr>)
    ensures r.Parsed? ==> |r.rest| < |ts|
    decreases |ts|, 2
  {
    if ts == [] then Bad
    else if ts[0].TLit? then Parsed(Lit(ts[0].lit), ts[1..])
    else if ts[0].TIdent? then
      if canAssign && StartsWith(ts[1..], TEqual) then
        match ParseExpression(SkipNewlines(ts[2..]))
        case Bad => Bad
        case Parsed(e, rest) => Parsed(Assign(ts[0].name, e), rest)
      else
        Parsed(Var(ts[0].name), ts[1..])
    else if ts[0] == TLParen then
      match ParseExpression(SkipNewlines(ts[1..]))
      case Bad => Bad
      case Parsed(e, rest) =>
        var rest := SkipNewlines(rest);
        if StartsWith(rest, TRParen) then Parsed(e, rest[1..]) else Bad
    else if IsPrefixOp(ts[0]) then
      match ParsePrecedence(ts[1..], PREC_UNARY)
      case Bad => Bad
      case Parsed(e, rest) => Parsed(Unary(PrefixOp(ts[0]), e), rest)
    else Bad
  }

  /** The infix loop: `left` has been parsed, tokens that bind at least as tightly as `p` follow. */
  function ParseInfix(left: Expr, ts: seq<Token>, p: nat): (r: Parsed<Expr>)
    ensures r.Parsed? ==> |r.rest| <= |ts|
    decreases |ts|, 1
  {
    if ts != [] && p <= RulePrec(ts[0]) && RulePrec(ts[0]) > PREC_NONE then
      match ParseOperator(left, ts)
      case Bad => Bad
      case Parsed(e, rest) => ParseInfix(e, rest, p)
    else if p <= PREC_ASSIGNMENT && StartsWith(ts, TEqual) then Bad
    else Parsed(left, ts)
  }

  /** One infix rule: binary operators take a tighter right operand, and/or an equally tight one. */
  function ParseOperator(left: Expr, ts: seq<Token>): (r: Parsed<Expr>)
    requires ts != [] && RulePrec(ts[0]) > PREC_NONE
    ensures r.Parsed? ==> |r.rest| < |ts|
    decreases |ts|, 0
  {
    if ts[0].TBin? then
      match ParsePrecedence(ts[1..], BinPrec(ts[0].op) + 1)
      case Bad => Bad
      case Parsed(right, rest) => Parsed(Binary(ts[0].op, left, right), rest)
    else if ts[0] == TLParen then
      match ParseArguments(ts[1..])
      case Bad => Bad
      case Parsed(args, rest) => Parsed(Call(left, args), rest)
    else
      var isAnd := ts[0] == TAnd || ts[0] == TAmpAmp;
      match ParsePrecedence(SkipNewlines(ts[1..]), if isAnd then PREC_AND else PREC_OR)
      case Bad => Bad
      case Parsed(right, rest) => Parsed(if isAnd then And(left, right) else Or(left, right), rest)
  }

  function ParseArguments(ts: seq<Token>): (r: Parsed<Exprs>)
    ensures r.Parsed? ==> |r.rest| < |ts|
    decreases |ts|, 6
  {
    if StartsWith(ts, TRParen) then Parsed(ENil, ts[1..]) else ParseArgumentList(ts, 0)
  }

  /** One argument and those after it; `n` arguments came before. */
  function ParseArgumentList(ts: seq<Token>, n: nat): (r: Parsed<Exprs>)
    ensures r.Parsed? ==> |r.rest| < |ts| && r.value.Length() + n <= MAX_ARGS
    decreases |ts|, 5
  {
    match ParseExpression(SkipNewlines(ts))
    case Bad => Bad
    case Parsed(e, rest) =>
      var rest := SkipNewlines(rest);
      if n >= MAX_ARGS then Bad
      else if StartsWith(rest, TComma) then
        match ParseArgumentList(rest[1..], n + 1)
        case Bad => Bad
        case Parsed(es, rest) => Parsed(ECons(e, es), rest)
      else if StartsWith(rest, TRParen) then Parsed(ECons(e, ENil), rest[1..])
      else Bad
  }

  // ---- Statements ----

  predicate EndsBlock(ts: seq<Token>, inArm: bool) {
    ts == [] || ts[0] == TEnd || (inArm && (ts[0] == TElsif || ts[0] == TElse))
  }

  /** Statements up to `end`, or up to `elsif`/`else` in the arm of a conditional. */
  function ParseBlock(ts: seq<Token>, inLoop: bool, inArm: bool): (r: Parsed<Block>)
    ensures r.Parsed? ==> |r.rest| <= |ts| && EndsBlock(r.rest, inArm)
    decreases |ts|, 6
  {
    if EndsBlock(ts, inArm) then Parsed(BNil, ts)
    else
      match ParseStatement(ts, inLoop)
      case Bad => Bad
      case Parsed(s, rest) =>
        match ParseBlock(SkipNewlines(rest), inLoop, inArm)
        case Bad => Bad
        case Parsed(b, rest) => Parsed(BCons(s, b), rest)
  }

  function ParseStatement(ts: seq<Token>, inLoop: bool): (r: Parsed<Stmt>)
    ensures r.Parsed? ==> |r.rest| < |ts|
    decreases |ts|, 5
  {
    if StartsWith(ts, TIf) then
      match ParseArm(ts[1..], inLoop)
      case Bad => Bad
      case Parsed(arms, rest) =>
        var rest := SkipNewlines(rest);
        if StartsWith(rest, TEnd) then Parsed(If(arms), rest[1..]) else Bad
    else if StartsWith(ts, TWhile) || StartsWith(ts, TUntil) then
      match ParseExpression(SkipNewlines(ts[1..]))
      case Bad => Bad
      case Parsed(c, rest) =>
        match ParseLoopBody(SkipNewlines(rest))
        case Bad => Bad
        case Parsed(b, rest) => Parsed(if ts[0] == TWhile then While(c, b) else Until(c, b), rest)
    else if StartsWith(ts, TLoop) then
      match ParseLoopBody(SkipNewlines(SkipOptional(ts[1..], TDo)))
      case Bad => Bad
      case Parsed(b, rest) => Parsed(Loop(b), rest)
    else if StartsWith(ts, TBreak) then
      if inLoop then Parsed(Break, ts[1..]) else Bad
    else if StartsWith(ts, TNext) then
      if inLoop then Parsed(Next, ts[1..]) else Bad
    else
      match ParseExpression(ts)
      case Bad => Bad
      case Parsed(e, rest) => Parsed(ExprStmt(e), rest)
  }

  function SkipOptional(ts: seq<Token>, t: Token): (r: seq<Token>)
    ensures |r| <= |ts|
  {
    if StartsWith(ts, t) then ts[1..] else ts
  }

  /** The body of a loop with its closing `end`. */
  function ParseLoopBody(ts: seq<Token>): (r: Parsed<Block>)
    ensures r.Parsed? ==> |r.rest| < |ts|
    decreases |ts|, 7
  {
    match ParseBlock(ts, true, false)
    case Bad => Bad
    case Parsed(b, rest) => if StartsWith(rest, TEnd) then Parsed(b, rest[1..]) else Bad
  }

  /** What follows `if` or `elsif`: a condition, its block, and the rest of the chain. */
  function ParseArm(ts: seq<Token>, inLoop: bool): (r: Parsed<Arms>)
    ensures r.Parsed? ==> |r.rest| < |ts|
    decreases |ts|, 7
  {
    match ParseExpression(SkipNewlines(ts))
    case Bad => Bad
    case Parsed(c, rest) =>
      var rest := SkipNewlines(SkipOptional(SkipNewlines(rest), TThen));
      match ParseBlock(rest, inLoop, true)
      case Bad => Bad
      case Parsed(b, rest) =>
        match ParseArmTail(rest, inLoop)
        case Bad => Bad
        case Parsed(tail, rest) => Parsed(Arm(c, b, tail), rest)
  }

  function ParseArmTail(ts: seq<Token>, inLoop: bool): (r: Parsed<Arms>)
    ensures r.Parsed? ==> |r.rest| <= |ts|
    decreases |ts|, 8
  {
    if StartsWith(ts, TElsif) then ParseArm(ts[1..], inLoop)
    else if StartsWith(ts, TElse) then
      match ParseBlock(SkipNewlines(ts[1..]), inLoop, false)
      case Bad => Bad
      case Parsed(b, rest) => Parsed(Else(b), rest)
    else Parsed(Else(BNil), ts)
  }

  /** A whole script: statements up to the end of the input. */
  function ParseScript(ts: seq<Token>): (r: Parsed<Block>)
    decreases |ts|
  {
    var ts := SkipNewlines(ts);
    if ts == [] then Parsed(BNil, [])
    else
      match ParseStatement(ts, false)
      case Bad => Bad
      case Parsed(s, rest) =>
        match ParseScript(rest)
        case Bad => Bad
        case Parsed(b, rest) => Parsed(BCons(s, b), rest)
  }
}
