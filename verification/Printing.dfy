/** Printing a syntax tree with the fewest parentheses, and the proof that the parser reads the
    same tree back: precedence and associativity are right at every level. */
module Printing {
  import opened Syntax
  import opened Parsing

  /** How tightly the outermost construct of an expression binds. */
  function Level(e: Expr): (l: nat)
    ensures PREC_ASSIGNMENT <= l <= PREC_PRIMARY
  {
    match e
    case Lit(_) => PREC_PRIMARY
    case Var(_) => PREC_PRIMARY
    case Assign(_, _) => PREC_ASSIGNMENT
    case Unary(_, _) => PREC_UNARY
    case Binary(op, _, _) => BinPrec(op)
    case And(_, _) => PREC_AND
    case Or(_, _) => PREC_OR
    case Call(_, _) => PREC_CALL
  }

  function UnToken(op: UnOp): Token {
    match op
    case Neg => TBin(Minus)
    case Not => TBang
    case BitNot => TTilde
  }

  /** The tokens of `e` in a place that requires level `q`: parenthesised only when `e` binds less tightly. */
  function PrintExpr(e: Expr, q: nat): seq<Token>
    decreases e, 1
  {
    if q <= Level(e) then PrintBare(e) else [TLParen] + PrintBare(e) + [TRParen]
  }

  /** Binary operators associate to the left, `and` and `or` to the right. */
  function PrintBare(e: Expr): seq<Token>
    decreases e, 0
  {
    match e
    case Lit(lit) => [TLit(lit)]
    case Var(name) => [TIdent(name)]
    case Assign(name, value) => [TIdent(name), TEqual] + PrintExpr(value, PREC_ASSIGNMENT)
    case Unary(op, operand) => [UnToken(op)] + PrintExpr(operand, PREC_UNARY)
    case Binary(op, l, r) => PrintExpr(l, BinPrec(op)) + [TBin(op)] + PrintExpr(r, BinPrec(op) + 1)
    case And(l, r) => PrintExpr(l, PREC_AND + 1) + [TAnd] + PrintExpr(r, PREC_AND)
    case Or(l, r) => PrintExpr(l, PREC_OR + 1) + [TOr] + PrintExpr(r, PREC_OR)
    case Call(callee, args) => PrintExpr(callee, PREC_CALL) + [TLParen] + PrintArguments(args) + [TRParen]
  }

  function PrintArguments(es: Exprs): seq<Token> {
    match es
    case ENil => []
    case ECons(e, ENil) => PrintExpr(e, PREC_ASSIGNMENT)
    case ECons(e, es) => PrintExpr(e, PREC_ASSIGNMENT) + [TComma] + PrintArguments(es)
  }

  function PrintStmt(s: Stmt): seq<Token> {
    match s
    case ExprStmt(e) => PrintExpr(e, PREC_ASSIGNMENT)
    case If(arms) => if arms.Else? then [] else [TIf] + PrintArms(arms) + [TEnd]
    case While(c, b) => [TWhile] + PrintExpr(c, PREC_ASSIGNMENT) + [TNewline] + PrintBlock(b) + [TEnd]
    case Until(c, b) => [TUntil] + PrintExpr(c, PREC_ASSIGNMENT) + [TNewline] + PrintBlock(b) + [TEnd]
    case Loop(b) => [TLoop] + PrintBlock(b) + [TEnd]
    case Break => [TBreak]
    case Next => [TNext]
  }

  function PrintArms(arms: Arms): seq<Token>
    requires arms.Arm?
    decreases arms, 0
  {
    PrintExpr(arms.cond, PREC_ASSIGNMENT) + [TNewline] + PrintBlock(arms.body) + PrintArmTail(arms.rest)
  }

  function PrintArmTail(arms: Arms): seq<Token>
    decreases arms, 1
  {
    if arms.Arm? then [TElsif] + PrintArms(arms)
    else if arms.body.BNil? then []
    else [TElse] + PrintBlock(arms.body)
  }

  function PrintBlock(b: Block): seq<Token> {
    match b
    case BNil => []
    case BCons(s, b) => PrintStmt(s) + [TNewline] + PrintBlock(b)
  }

  // ---- The trees the grammar has ----

  /** No call has more than 255 arguments. */
  predicate CallsFit(e: Expr) {
    match e
    case Lit(_) => true
    case Var(_) => true
    case Assign(_, value) => CallsFit(value)
    case Unary(_, operand) => CallsFit(operand)
    case Binary(_, l, r) => CallsFit(l) && CallsFit(r)
    case And(l, r) => CallsFit(l) && CallsFit(r)
    case Or(l, r) => CallsFit(l) && CallsFit(r)
    case Call(callee, args) => CallsFit(callee) && AllCallsFit(args) && args.Length() <= MAX_ARGS
  }

  predicate AllCallsFit(es: Exprs) {
    match es
    case ENil => true
    case ECons(e, es) => CallsFit(e) && AllCallsFit(es)
  }

  /** `break` and `next` stand inside a loop, and every `if` has a guarded arm. */
  predicate WellFormedStmt(s: Stmt, inLoop: bool) {
    match s
    case ExprStmt(e) => CallsFit(e)
    case If(arms) => arms.Arm? && WellFormedArms(arms, inLoop)
    case While(c, b) => CallsFit(c) && WellFormed(b, true)
    case Until(c, b) => CallsFit(c) && WellFormed(b, true)
    case Loop(b) => WellFormed(b, true)
    case Break => inLoop
    case Next => inLoop
  }

  predicate WellFormedArms(arms: Arms, inLoop: bool) {
    match arms
    case Arm(c, b, rest) => CallsFit(c) && WellFormed(b, inLoop) && WellFormedArms(rest, inLoop)
    case Else(b) => WellFormed(b, inLoop)
  }

  predicate WellFormed(b: Block, inLoop: bool) {
    match b
    case BNil => true
    case BCons(s, b) => WellFormedStmt(s, inLoop) && WellFormed(b, inLoop)
  }

  // ---- Expressions round-trip ----

  /** What may follow an expression printed at level `q` so that the parser stops there. */
  predicate Delimits(rest: seq<Token>, q: nat) {
    && NextPrec(rest) <= q
    && (NextPrec(rest) == q ==> PREC_BITWISE_OR <= q)
    && !StartsWith(rest, TEqual)
  }

  predicate StartsExpression(ts: seq<Token>) {
    ts != [] && (ts[0].TLit? || ts[0].TIdent? || ts[0] == TLParen || IsPrefixOp(ts[0]))
  }

  lemma {:induction false} PrintStartsExpression(e: Expr, q: nat)
    ensures StartsExpression(PrintExpr(e, q)) && StartsExpression(PrintBare(e))
    decreases e
  {
    match e
    case Lit(_) =>
    case Var(_) =>
    case Assign(_, _) =>
    case Unary(_, _) =>
    case Binary(op, l, _) => PrintStartsExpression(l, BinPrec(op));
    case And(l, _) => PrintStartsExpression(l, PREC_AND + 1);
    case Or(l, _) => PrintStartsExpression(l, PREC_OR + 1);
    case Call(callee, _) => PrintStartsExpression(callee, PREC_CALL);
  }

  /** Read at any level `p <= q`, the print of `e` gives back `e` and leaves the infix loop at `rest`. */
  lemma {:induction false} ParsePrinted(e: Expr, q: nat, p: nat, rest: seq<Token>)
    requires CallsFit(e) && PREC_ASSIGNMENT <= p <= q <= PREC_CALL && Delimits(rest, q)
    ensures ParsePrecedence(PrintExpr(e, q) + rest, p) == ParseInfix(e, rest, p)
    decreases e, q
  {
    hide ParsePrecedence, PrintBare, ParseInfix;
    if Level(e) < q {
      var inner := [TRParen] + rest;
      assert PrintExpr(e, q) + rest == [TLParen] + (PrintExpr(e, PREC_ASSIGNMENT) + inner);
      ParsePrinted(e, PREC_ASSIGNMENT, PREC_ASSIGNMENT, inner);
      InfixStops(e, inner);
      PrintStartsExpression(e, PREC_ASSIGNMENT);
      ParenStep(e, PrintExpr(e, PREC_ASSIGNMENT), p, rest);
    } else {
      ParseBarePrinted(e, q, p, rest);
    }
  }

  /** A closing parenthesis ends the infix loop. */
  lemma InfixStops(e: Expr, inner: seq<Token>)
    requires StartsWith(inner, TRParen)
    ensures ParseInfix(e, inner, PREC_ASSIGNMENT) == Parsed(e, inner)
  {
  }

  lemma PrefixParen(e: Expr, ts: seq<Token>, inner: seq<Token>, canAssign: bool)
    requires ts != [] && ts[0] == TLParen && StartsExpression(ts[1..]) && StartsWith(inner, TRParen)
    requires ParsePrecedence(ts[1..], PREC_ASSIGNMENT) == Parsed(e, inner)
    ensures ParsePrefix(ts, canAssign) == Parsed(e, inner[1..])
  {
    hide ParsePrecedence, SkipNewlines;
    assert SkipNewlines(ts[1..]) == ts[1..] && SkipNewlines(inner) == inner;
  }

  lemma ParenStep(e: Expr, ts: seq<Token>, p: nat, rest: seq<Token>)
    requires StartsExpression(ts) && ParsePrecedence(ts + ([TRParen] + rest), PREC_ASSIGNMENT) == Parsed(e, [TRParen] + rest)
    ensures ParsePrecedence([TLParen] + (ts + ([TRParen] + rest)), p) == ParseInfix(e, rest, p)
  {
    hide ParseInfix, ParsePrefix;
    var inner := [TRParen] + rest;
    var all := [TLParen] + (ts + inner);
    assert all[1..] == ts + inner && (ts + inner)[0] == ts[0] && inner[1..] == rest;
    PrefixParen(e, all, inner, p <= PREC_ASSIGNMENT);
  }

  lemma {:induction false} ParseBarePrinted(e: Expr, q: nat, p: nat, rest: seq<Token>)
    requires CallsFit(e) && PREC_ASSIGNMENT <= p <= q <= PREC_CALL && Delimits(rest, q) && q <= Level(e)
    ensures ParsePrecedence(PrintBare(e) + rest, p) == ParseInfix(e, rest, p)
    decreases e, 0
  {
    match e
    case Lit(lit) => LeafStep(TLit(lit), p, rest);
    case Var(name) => LeafStep(TIdent(name), p, rest);
    case Assign(_, _) => ParsePrintedAssign(e, p, rest);
    case Unary(_, _) => ParsePrintedUnary(e, p, rest);
    case Binary(op, l, r) => ParsePrintedOperator(l, TBin(op), r, p, rest);
    case And(l, r) => ParsePrintedOperator(l, TAnd, r, p, rest);
    case Or(l, r) => ParsePrintedOperator(l, TOr, r, p, rest);
    case Call(_, _) => ParsePrintedCall(e, p, rest);
  }

  lemma LeafStep(t: Token, p: nat, rest: seq<Token>)
    requires t.TLit? || t.TIdent?
    requires !StartsWith(rest, TEqual)
    ensures ParsePrecedence([t] + rest, p) == ParseInfix(if t.TLit? then Lit(t.lit) else Var(t.name), rest, p)
  {
    assert ([t] + rest)[1..] == rest;
  }

  lemma {:induction false} ParsePrintedAssign(e: Expr, p: nat, rest: seq<Token>)
    requires e.Assign? && CallsFit(e) && p == PREC_ASSIGNMENT && Delimits(rest, p)
    ensures ParsePrecedence(PrintBare(e) + rest, p) == ParseInfix(e, rest, p)
    decreases e, 0, 0
  {
    var ts := PrintExpr(e.value, PREC_ASSIGNMENT);
    PrintStartsExpression(e.value, PREC_ASSIGNMENT);
    ParsePrinted(e.value, PREC_ASSIGNMENT, PREC_ASSIGNMENT, rest);
    AssignStep(e.name, e.value, ts + rest, p, rest);
    assert PrintBare(e) + rest == [TIdent(e.name), TEqual] + (ts + rest);
  }

  lemma {:induction false} ParsePrintedUnary(e: Expr, p: nat, rest: seq<Token>)
    requires e.Unary? && CallsFit(e) && Delimits(rest, PREC_UNARY)
    ensures ParsePrecedence(PrintBare(e) + rest, p) == ParseInfix(e, rest, p)
    decreases e, 0, 0
  {
    ParsePrinted(e.operand, PREC_UNARY, PREC_UNARY, rest);
    PrefixStep(e.uop, e.operand, PrintExpr(e.operand, PREC_UNARY), p, rest);
  }

  function LeftLevel(t: Token): nat {
    if t.TBin? then BinPrec(t.op) else if t == TAnd then PREC_AND + 1 else PREC_OR + 1
  }

  /** The right operand's level: one tighter for the left-associative operators. */
  function RightLevel(t: Token): nat {
    if t.TBin? then BinPrec(t.op) + 1 else if t == TAnd then PREC_AND else PREC_OR
  }

  function Combine(l: Expr, t: Token, r: Expr): Expr {
    if t.TBin? then Binary(t.op, l, r) else if t == TAnd then And(l, r) else Or(l, r)
  }

  lemma {:induction false} ParsePrintedOperator(l: Expr, t: Token, r: Expr, p: nat, rest: seq<Token>)
    requires t.TBin? || t == TAnd || t == TOr
    requires CallsFit(l) && CallsFit(r) && PREC_ASSIGNMENT <= p <= RulePrec(t)
    requires NextPrec(rest) < RightLevel(t) && !StartsWith(rest, TEqual)
    ensures ParsePrecedence(PrintBare(Combine(l, t, r)) + rest, p) == ParseInfix(Combine(l, t, r), rest, p)
    decreases Combine(l, t, r), 0, 0
  {
    hide PrintExpr, ParsePrecedence, ParseInfix, CallsFit;
    var lts, rts := PrintExpr(l, LeftLevel(t)), PrintExpr(r, RightLevel(t));
    PrintStartsExpression(r, RightLevel(t));
    ParsePrinted(l, LeftLevel(t), p, [t] + (rts + rest));
    ParsePrinted(r, RightLevel(t), RightLevel(t), rest);
    OperatorStep(l, t, r, rts + rest, p, rest);
    Regroup(lts, [t], rts, rest);
  }

  lemma OperatorStep(l: Expr, t: Token, r: Expr, ts: seq<Token>, p: nat, rest: seq<Token>)
    requires t.TBin? || t == TAnd || t == TOr
    requires p <= RulePrec(t) && !StartsWith(ts, TNewline)
    requires NextPrec(rest) < RightLevel(t) && !StartsWith(rest, TEqual)
    requires ParsePrecedence(ts, RightLevel(t)) == ParseInfix(r, rest, RightLevel(t))
    ensures ParseInfix(l, [t] + ts, p) == ParseInfix(Combine(l, t, r), rest, p)
  {
    ParseStops(r, RightLevel(t), rest);
    OperatorParses(l, t, r, ts, rest);
    InfixStep(l, [t] + ts, p, Combine(l, t, r), rest);
  }

  lemma Regroup(a: seq<Token>, b: seq<Token>, c: seq<Token>, d: seq<Token>)
    ensures a + b + c + d == a + (b + (c + d))
  {
  }

  lemma ParseStops(e: Expr, p: nat, rest: seq<Token>)
    requires NextPrec(rest) < p && !StartsWith(rest, TEqual)
    ensures ParseInfix(e, rest, p) == Parsed(e, rest)
  {
  }

  lemma {:induction false} ParsePrintedCall(e: Expr, p: nat, rest: seq<Token>)
    requires e.Call? && CallsFit(e) && PREC_ASSIGNMENT <= p <= PREC_CALL
    ensures ParsePrecedence(PrintBare(e) + rest, p) == ParseInfix(e, rest, p)
    decreases e, 0, 0
  {
    hide PrintExpr, ParsePrecedence, ParseInfix, ParseOperator, ParseArguments, PrintArguments;
    var args := PrintArguments(e.args) + ([TRParen] + rest);
    assert PrintBare(e) + rest == PrintExpr(e.callee, PREC_CALL) + ([TLParen] + args);
    ParsePrinted(e.callee, PREC_CALL, p, [TLParen] + args);
    ParsePrintedArguments(e.args, rest);
    CallParses(e.callee, e.args, args, rest);
    InfixStep(e.callee, [TLParen] + args, p, e, rest);
  }

  lemma CallParses(callee: Expr, args: Exprs, ts: seq<Token>, rest: seq<Token>)
    requires ParseArguments(ts) == Parsed(args, rest)
    ensures ParseOperator(callee, [TLParen] + ts) == Parsed(Call(callee, args), rest)
  {
    assert ([TLParen] + ts)[1..] == ts;
  }

  lemma AssignStep(name: string, value: Expr, ts: seq<Token>, p: nat, rest: seq<Token>)
    requires p <= PREC_ASSIGNMENT && !StartsWith(ts, TNewline)
    requires ParseExpression(ts) == Parsed(value, rest)
    ensures ParsePrecedence([TIdent(name), TEqual] + ts, p) == ParseInfix(Assign(name, value), rest, p)
  {
    var all := [TIdent(name), TEqual] + ts;
    assert all[1] == TEqual && all[2..] == ts;
    assert ParsePrefix(all, true) == Parsed(Assign(name, value), rest);
  }

  lemma PrefixStep(op: UnOp, operand: Expr, ts: seq<Token>, p: nat, rest: seq<Token>)
    requires ParsePrecedence(ts + rest, PREC_UNARY) == ParseInfix(operand, rest, PREC_UNARY)
    requires NextPrec(rest) <= PREC_UNARY
    ensures ParsePrecedence([UnToken(op)] + ts + rest, p) == ParseInfix(Unary(op, operand), rest, p)
  {
    var all := [UnToken(op)] + ts + rest;
    assert all[1..] == ts + rest;
    assert NextPrec(rest) < PREC_UNARY;
    assert ParseInfix(operand, rest, PREC_UNARY) == Parsed(operand, rest);
    assert PrefixOp(UnToken(op)) == op;
    assert ParsePrefix(all, p <= PREC_ASSIGNMENT) == Parsed(Unary(op, operand), rest);
  }

  lemma OperatorParses(l: Expr, t: Token, r: Expr, ts: seq<Token>, rest: seq<Token>)
    requires t.TBin? || t == TAnd || t == TOr
    requires !StartsWith(ts, TNewline)
    requires ParsePrecedence(ts, RightLevel(t)) == Parsed(r, rest)
    ensures ParseOperator(l, [t] + ts) == Parsed(Combine(l, t, r), rest)
  {
    assert ([t] + ts)[1..] == ts;
  }

  lemma InfixStep(l: Expr, ts: seq<Token>, p: nat, e: Expr, rest: seq<Token>)
    requires ts != [] && p <= RulePrec(ts[0]) && PREC_NONE < RulePrec(ts[0])
    requires ParseOperator(l, ts) == Parsed(e, rest)
    ensures ParseInfix(l, ts, p) == ParseInfix(e, rest, p)
  {
  }

  lemma {:induction false} ParsePrintedArguments(es: Exprs, rest: seq<Token>)
    requires AllCallsFit(es) && es.Length() <= MAX_ARGS
    ensures ParseArguments(PrintArguments(es) + ([TRParen] + rest)) == Parsed(es, rest)
    decreases es, 18
  {
    if es.ENil? {
      assert PrintArguments(es) + ([TRParen] + rest) == [TRParen] + rest;
      assert ([TRParen] + rest)[1..] == rest;
    } else {
      PrintStartsExpression(es.head, PREC_ASSIGNMENT);
      ParsePrintedArgumentList(es, 0, rest);
    }
  }

  lemma {:induction false} ParsePrintedArgumentList(es: Exprs, n: nat, rest: seq<Token>)
    requires AllCallsFit(es) && es.ECons? && n + es.Length() <= MAX_ARGS
    ensures ParseArgumentList(PrintArguments(es) + ([TRParen] + rest), n) == Parsed(es, rest)
    decreases es, 17
  {
    hide ParseArgumentList, ParsePrecedence, PrintExpr, PrintBare;
    var e, tail, ets := es.head, es.tail, PrintExpr(es.head, PREC_ASSIGNMENT);
    PrintStartsExpression(e, PREC_ASSIGNMENT);
    if tail.ECons? {
      var after := PrintArguments(tail) + ([TRParen] + rest);
      ParsePrinted(e, PREC_ASSIGNMENT, PREC_ASSIGNMENT, [TComma] + after);
      ParsePrintedArgumentList(tail, n + 1, rest);
      ParseStops(e, PREC_ASSIGNMENT, [TComma] + after);
      MoreArgumentsStep(e, ets + ([TComma] + after), tail, after, n, rest);
      Regroup(ets, [TComma], PrintArguments(tail), [TRParen] + rest);
    } else {
      ParsePrinted(e, PREC_ASSIGNMENT, PREC_ASSIGNMENT, [TRParen] + rest);
      ParseStops(e, PREC_ASSIGNMENT, [TRParen] + rest);
      LastArgumentStep(e, ets + ([TRParen] + rest), n, rest);
    }
  }

  lemma MoreArgumentsStep(e: Expr, ts: seq<Token>, tail: Exprs, after: seq<Token>, n: nat, rest: seq<Token>)
    requires n < MAX_ARGS && !StartsWith(ts, TNewline)
    requires ParseExpression(ts) == Parsed(e, [TComma] + after) && ParseArgumentList(after, n + 1) == Parsed(tail, rest)
    ensures ParseArgumentList(ts, n) == Parsed(ECons(e, tail), rest)
  {
    hide ParseExpression;
    assert ([TComma] + after)[1..] == after;
  }

  lemma LastArgumentStep(e: Expr, ts: seq<Token>, n: nat, rest: seq<Token>)
    requires n < MAX_ARGS && !StartsWith(ts, TNewline) && ParseExpression(ts) == Parsed(e, [TRParen] + rest)
    ensures ParseArgumentList(ts, n) == Parsed(ECons(e, ENil), rest)
  {
    hide ParseExpression;
    assert ([TRParen] + rest)[1..] == rest;
  }

  // ---- Scripts round-trip ----

  /** A printed expression statement or condition is read back up to the newline after it. */
  lemma ParsePrintedLine(e: Expr, rest: seq<Token>)
    requires CallsFit(e)
    ensures ParseExpression(PrintExpr(e, PREC_ASSIGNMENT) + ([TNewline] + rest)) == Parsed(e, [TNewline] + rest)
    ensures SkipNewlines(PrintExpr(e, PREC_ASSIGNMENT) + ([TNewline] + rest)) ==
            PrintExpr(e, PREC_ASSIGNMENT) + ([TNewline] + rest)
  {
    PrintStartsExpression(e, PREC_ASSIGNMENT);
    ParsePrinted(e, PREC_ASSIGNMENT, PREC_ASSIGNMENT, [TNewline] + rest);
  }

  lemma SkipOneNewline(rest: seq<Token>)
    requires !StartsWith(rest, TNewline)
    ensures SkipNewlines([TNewline] + rest) == rest
  {
    assert ([TNewline] + rest)[1..] == rest;
  }

  /** The first token of a printed statement is not one that ends a block or is skipped before it. */
  predicate StartsStatement(ts: seq<Token>) {
    ts != [] && ts[0] !in {TNewline, TEnd, TElsif, TElse, TThen, TDo}
  }

  lemma PrintStartsStatement(s: Stmt)
    requires s.If? ==> s.arms.Arm?
    ensures StartsStatement(PrintStmt(s))
  {
    if s.ExprStmt? { PrintStartsExpression(s.e, PREC_ASSIGNMENT); }
  }

  /** What follows a printed block: the end of the input or a closing keyword. */
  predicate ClosesBlock(ts: seq<Token>, inArm: bool) {
    EndsBlock(ts, inArm) && !StartsWith(ts, TNewline)
  }

  lemma PrintBlockStart(b: Block, inLoop: bool, rest: seq<Token>, inArm: bool)
    requires ClosesBlock(rest, inArm) && WellFormed(b, inLoop)
    ensures b.BCons? ==> StartsStatement(PrintBlock(b))
    ensures !StartsWith(PrintBlock(b) + rest, TNewline)
    ensures !StartsWith(PrintBlock(b) + rest, TThen) && !StartsWith(PrintBlock(b) + rest, TDo)
  {
    if b.BCons? { PrintStartsStatement(b.head); }
  }

  lemma {:induction false} ParsePrintedStmt(s: Stmt, inLoop: bool, rest: seq<Token>)
    requires WellFormedStmt(s, inLoop)
    ensures ParseStatement(PrintStmt(s) + ([TNewline] + rest), inLoop) == Parsed(s, [TNewline] + rest)
    decreases s
  {
    var after := [TNewline] + rest;
    match s
    case ExprStmt(e) =>
      ExprStmtStep(e, rest, inLoop);
    case If(arms) =>
      ParsePrintedArms(arms, inLoop, after);
      IfStep(arms, PrintArms(arms), inLoop, after);
      Regroup([TIf], PrintArms(arms), [TEnd], after);
    case While(c, b) =>
      ParsePrintedLoop(TWhile, c, b, inLoop, after);
      RegroupLoop([TWhile], PrintExpr(c, PREC_ASSIGNMENT), [TNewline], PrintBlock(b), [TEnd], after);
    case Until(c, b) =>
      ParsePrintedLoop(TUntil, c, b, inLoop, after);
      RegroupLoop([TUntil], PrintExpr(c, PREC_ASSIGNMENT), [TNewline], PrintBlock(b), [TEnd], after);
    case Loop(b) =>
      var body := PrintBlock(b) + ([TEnd] + after);
      PrintBlockStart(b, true, [TEnd] + after, false);
      ParsePrintedLoopBody(b, after);
      EndlessLoopStep(b, body, inLoop, after);
      Regroup([TLoop], PrintBlock(b), [TEnd], after);
    case Break => JumpStep(after, inLoop);
    case Next => JumpStep(after, inLoop);
  }

  lemma RegroupLoop(a: seq<Token>, b: seq<Token>, c: seq<Token>, d: seq<Token>, e: seq<Token>, f: seq<Token>)
    ensures a + b + c + d + e + f == a + (b + (c + (d + (e + f))))
  {
  }

  lemma ExprStmtStep(e: Expr, rest: seq<Token>, inLoop: bool)
    requires CallsFit(e)
    ensures ParseStatement(PrintExpr(e, PREC_ASSIGNMENT) + ([TNewline] + rest), inLoop) ==
            Parsed(ExprStmt(e), [TNewline] + rest)
  {
    hide ParseStatement, ParseExpression, PrintExpr, CallsFit;
    PrintStartsExpression(e, PREC_ASSIGNMENT);
    ParsePrintedLine(e, rest);
    ExprStmtParses(PrintExpr(e, PREC_ASSIGNMENT) + ([TNewline] + rest), inLoop);
  }

  /** Statements that no keyword introduces. */
  lemma ExprStmtParses(ts: seq<Token>, inLoop: bool)
    requires ts != [] && ts[0] !in {TIf, TWhile, TUntil, TLoop, TBreak, TNext}
    ensures var r := ParseExpression(ts);
            ParseStatement(ts, inLoop) == if r.Bad? then Bad else Parsed(ExprStmt(r.value), r.rest)
  {
    hide ParseExpression;
  }

  lemma EndlessLoopStep(b: Block, body: seq<Token>, inLoop: bool, after: seq<Token>)
    requires ParseLoopBody(body) == Parsed(b, after)
    requires !StartsWith(body, TNewline) && !StartsWith(body, TDo)
    ensures ParseStatement([TLoop] + body, inLoop) == Parsed(Loop(b), after)
  {
    assert ([TLoop] + body)[1..] == body;
  }

  lemma JumpStep(after: seq<Token>, inLoop: bool)
    requires inLoop
    ensures ParseStatement([TBreak] + after, inLoop) == Parsed(Break, after)
    ensures ParseStatement([TNext] + after, inLoop) == Parsed(Next, after)
  {
    assert ([TBreak] + after)[1..] == after;
    assert ([TNext] + after)[1..] == after;
  }

  lemma IfStep(arms: Arms, ts: seq<Token>, inLoop: bool, after: seq<Token>)
    requires ParseArm(ts + ([TEnd] + after), inLoop) == Parsed(arms, [TEnd] + after)
    ensures ParseStatement([TIf] + (ts + ([TEnd] + after)), inLoop) == Parsed(If(arms), after)
  {
    hide ParseArm, ParseBlock, ParsePrecedence;
    assert ([TIf] + (ts + ([TEnd] + after)))[1..] == ts + ([TEnd] + after);
    assert ([TEnd] + after)[1..] == after;
  }

  lemma {:induction false} ParsePrintedLoop(t: Token, c: Expr, b: Block, inLoop: bool, after: seq<Token>)
    requires t == TWhile || t == TUntil
    requires CallsFit(c) && WellFormed(b, true)
    ensures ParseStatement([t] + (PrintExpr(c, PREC_ASSIGNMENT) + ([TNewline] + (PrintBlock(b) + ([TEnd] + after)))), inLoop) ==
            Parsed(if t == TWhile then While(c, b) else Until(c, b), after)
    decreases b, 2
  {
    var body := PrintBlock(b) + ([TEnd] + after);
    ParsePrintedLoopBody(b, after);
    ParsePrintedLine(c, body);
    PrintBlockStart(b, true, [TEnd] + after, false);
    SkipOneNewline(body);
    LoopStep(t, c, PrintExpr(c, PREC_ASSIGNMENT), b, body, inLoop, after);
  }

  lemma LoopStep(t: Token, c: Expr, cts: seq<Token>, b: Block, body: seq<Token>, inLoop: bool, after: seq<Token>)
    requires t == TWhile || t == TUntil
    requires SkipNewlines(cts + ([TNewline] + body)) == cts + ([TNewline] + body)
    requires ParseExpression(cts + ([TNewline] + body)) == Parsed(c, [TNewline] + body)
    requires SkipNewlines([TNewline] + body) == body
    requires ParseLoopBody(body) == Parsed(b, after)
    ensures ParseStatement([t] + (cts + ([TNewline] + body)), inLoop) ==
            Parsed(if t == TWhile then While(c, b) else Until(c, b), after)
  {
    assert ([t] + (cts + ([TNewline] + body)))[1..] == cts + ([TNewline] + body);
  }

  lemma {:induction false} ParsePrintedLoopBody(b: Block, after: seq<Token>)
    requires WellFormed(b, true)
    ensures ParseLoopBody(PrintBlock(b) + ([TEnd] + after)) == Parsed(b, after)
    decreases b, 1
  {
    ParsePrintedBlock(b, true, false, [TEnd] + after);
    assert ([TEnd] + after)[1..] == after;
  }

  lemma {:induction false} ParsePrintedArms(arms: Arms, inLoop: bool, after: seq<Token>)
    requires arms.Arm? && WellFormedArms(arms, inLoop)
    ensures ParseArm(PrintArms(arms) + ([TEnd] + after), inLoop) == Parsed(arms, [TEnd] + after)
    decreases arms, 1
  {
    var Arm(c, b, rest) := arms;
    var tail := PrintArmTail(rest) + ([TEnd] + after);
    var body := PrintBlock(b) + tail;
    assert PrintArms(arms) + ([TEnd] + after) == PrintExpr(c, PREC_ASSIGNMENT) + ([TNewline] + body);
    ParsePrintedLine(c, body);
    PrintBlockStart(b, inLoop, tail, true);
    SkipOneNewline(body);
    ParsePrintedBlock(b, inLoop, true, tail);
    ParsePrintedArmTail(rest, inLoop, after);
  }

  lemma {:induction false} ParsePrintedArmTail(rest: Arms, inLoop: bool, after: seq<Token>)
    requires WellFormedArms(rest, inLoop)
    ensures ParseArmTail(PrintArmTail(rest) + ([TEnd] + after), inLoop) == Parsed(rest, [TEnd] + after)
    decreases rest, 2
  {
    hide PrintBlock, PrintArms, ParseArm, ParseBlock;
    var closing := [TEnd] + after;
    var tail := PrintArmTail(rest) + closing;
    if rest.Arm? {
      assert tail[1..] == PrintArms(rest) + closing;
      ParsePrintedArms(rest, inLoop, after);
    } else if rest.body.BCons? {
      assert tail[1..] == PrintBlock(rest.body) + closing;
      PrintBlockStart(rest.body, inLoop, closing, false);
      ParsePrintedBlock(rest.body, inLoop, false, closing);
    } else {
      assert tail == closing;
    }
  }

  lemma {:induction false} ParsePrintedBlock(b: Block, inLoop: bool, inArm: bool, rest: seq<Token>)
    requires WellFormed(b, inLoop) && ClosesBlock(rest, inArm)
    ensures ParseBlock(PrintBlock(b) + rest, inLoop, inArm) == Parsed(b, rest)
    decreases b, 0
  {
    if b.BNil? {
      assert PrintBlock(b) + rest == rest;
    } else {
      var tail := PrintBlock(b.tail) + rest;
      assert PrintBlock(b) + rest == PrintStmt(b.head) + ([TNewline] + tail);
      PrintStartsStatement(b.head);
      ParsePrintedStmt(b.head, inLoop, tail);
      PrintBlockStart(b.tail, inLoop, rest, inArm);
      SkipOneNewline(tail);
      ParsePrintedBlock(b.tail, inLoop, inArm, rest);
    }
  }

  /** Every script is read back from its print: precedence, associativity, block structure and all. */
  lemma {:induction false} ScriptRoundTrip(b: Block)
    requires WellFormed(b, false)
    ensures ParseScript(PrintBlock(b)) == Parsed(b, [])
  {
    PrintBlockStart(b, false, [], false);
    assert PrintBlock(b) + [] == PrintBlock(b);
    ParsePrintedScript(b, PrintBlock(b));
  }

  lemma {:induction false} ParsePrintedScript(b: Block, ts: seq<Token>)
    requires WellFormed(b, false) && SkipNewlines(ts) == PrintBlock(b)
    ensures ParseScript(ts) == Parsed(b, [])
  {
    hide PrintStmt, ParseStatement;
    PrintBlockStart(b, false, [], false);
    if b.BCons? {
      var tail := PrintBlock(b.tail);
      assert PrintBlock(b) == PrintStmt(b.head) + ([TNewline] + tail);
      ParsePrintedStmt(b.head, false, tail);
      PrintBlockStart(b.tail, false, [], false);
      assert tail + [] == tail;
      SkipOneNewline(tail);
      ParsePrintedScript(b.tail, [TNewline] + tail);
    }
  }

  // ---- Everything the parser accepts is a tree of the grammar ----

  lemma {:induction false} ParsedPrecedenceFits(ts: seq<Token>, p: nat)
    ensures ParsePrecedence(ts, p).Parsed? ==> CallsFit(ParsePrecedence(ts, p).value)
    decreases |ts|, 3
  {
    var s := SkipNewlines(ts);
    ParsedPrefixFits(s, p <= PREC_ASSIGNMENT);
    var r := ParsePrefix(s, p <= PREC_ASSIGNMENT);
    if r.Parsed? { ParsedInfixFits(r.value, r.rest, p); }
  }

  lemma {:induction false} ParsedPrefixFits(ts: seq<Token>, canAssign: bool)
    ensures ParsePrefix(ts, canAssign).Parsed? ==> CallsFit(ParsePrefix(ts, canAssign).value)
    decreases |ts|, 2
  {
    if ts == [] || ts[0].TLit? {
    } else if ts[0].TIdent? {
      if canAssign && StartsWith(ts[1..], TEqual) { ParsedPrecedenceFits(SkipNewlines(ts[2..]), PREC_ASSIGNMENT); }
    } else if ts[0] == TLParen {
      ParsedPrecedenceFits(SkipNewlines(ts[1..]), PREC_ASSIGNMENT);
    } else {
      ParsedPrecedenceFits(ts[1..], PREC_UNARY);
    }
  }

  lemma {:induction false} ParsedInfixFits(left: Expr, ts: seq<Token>, p: nat)
    requires CallsFit(left)
    ensures ParseInfix(left, ts, p).Parsed? ==> CallsFit(ParseInfix(left, ts, p).value)
    decreases |ts|, 1
  {
    if ts != [] && p <= RulePrec(ts[0]) && RulePrec(ts[0]) > PREC_NONE {
      ParsedOperatorFits(left, ts);
      var r := ParseOperator(left, ts);
      if r.Parsed? { ParsedInfixFits(r.value, r.rest, p); }
    }
  }

  lemma {:induction false} ParsedOperatorFits(left: Expr, ts: seq<Token>)
    requires ts != [] && RulePrec(ts[0]) > PREC_NONE && CallsFit(left)
    ensures ParseOperator(left, ts).Parsed? ==> CallsFit(ParseOperator(left, ts).value)
    decreases |ts|, 0
  {
    if ts[0].TBin? {
      ParsedPrecedenceFits(ts[1..], BinPrec(ts[0].op) + 1);
    } else if ts[0] == TLParen {
      if !StartsWith(ts[1..], TRParen) { ParsedArgumentsFit(ts[1..], 0); }
    } else {
      var isAnd := ts[0] == TAnd || ts[0] == TAmpAmp;
      ParsedPrecedenceFits(SkipNewlines(ts[1..]), if isAnd then PREC_AND else PREC_OR);
    }
  }

  lemma {:induction false} ParsedArgumentsFit(ts: seq<Token>, n: nat)
    ensures ParseArgumentList(ts, n).Parsed? ==> AllCallsFit(ParseArgumentList(ts, n).value)
    decreases |ts|, 5
  {
    ParsedPrecedenceFits(SkipNewlines(ts), PREC_ASSIGNMENT);
    var r := ParseExpression(SkipNewlines(ts));
    if r.Parsed? {
      var rest := SkipNewlines(r.rest);
      if StartsWith(rest, TComma) && n < MAX_ARGS { ParsedArgumentsFit(rest[1..], n + 1); }
    }
  }

  lemma {:induction false} ParsedBlockFits(ts: seq<Token>, inLoop: bool, inArm: bool)
    ensures ParseBlock(ts, inLoop, inArm).Parsed? ==> WellFormed(ParseBlock(ts, inLoop, inArm).value, inLoop)
    decreases |ts|, 6
  {
    if !EndsBlock(ts, inArm) {
      ParsedStmtFits(ts, inLoop);
      var r := ParseStatement(ts, inLoop);
      if r.Parsed? { ParsedBlockFits(SkipNewlines(r.rest), inLoop, inArm); }
    }
  }

  lemma {:induction false} ParsedStmtFits(ts: seq<Token>, inLoop: bool)
    ensures ParseStatement(ts, inLoop).Parsed? ==> WellFormedStmt(ParseStatement(ts, inLoop).value, inLoop)
    decreases |ts|, 5
  {
    hide *;
    if ParseStatement(ts, inLoop).Bad? { return; }
    StatementCases(ts, inLoop);
    if StartsWith(ts, TIf) {
      StartsNonEmpty(ts, TIf);
      ParsedArmFits(ts[1..], inLoop);
    } else if StartsWith(ts, TWhile) || StartsWith(ts, TUntil) {
      StartsNonEmpty(ts, TWhile);
      StartsNonEmpty(ts, TUntil);
      ParsedExpressionFits(SkipNewlines(ts[1..]));
      var r := ParseExpression(SkipNewlines(ts[1..]));
      if r.Parsed? { ParsedLoopBodyFits(SkipNewlines(r.rest)); }
    } else if StartsWith(ts, TLoop) {
      StartsNonEmpty(ts, TLoop);
      ParsedLoopBodyFits(SkipNewlines(SkipOptional(ts[1..], TDo)));
    } else {
      ParsedExpressionFits(ts);
    }
  }

  /** What a parsed statement is made of, and when it is well formed. */
  lemma StatementCases(ts: seq<Token>, inLoop: bool)
    requires ParseStatement(ts, inLoop).Parsed?
    ensures var s := ParseStatement(ts, inLoop).value;
            if StartsWith(ts, TIf) then
              var arms := ParseArm(ts[1..], inLoop);
              arms.Parsed? && (WellFormedStmt(s, inLoop) == (arms.value.Arm? && WellFormedArms(arms.value, inLoop)))
            else if StartsWith(ts, TWhile) || StartsWith(ts, TUntil) then
              var c := ParseExpression(SkipNewlines(ts[1..]));
              c.Parsed? &&
              var b := ParseLoopBody(SkipNewlines(c.rest));
              b.Parsed? && (WellFormedStmt(s, inLoop) == (CallsFit(c.value) && WellFormed(b.value, true)))
            else if StartsWith(ts, TLoop) then
              var b := ParseLoopBody(SkipNewlines(SkipOptional(ts[1..], TDo)));
              b.Parsed? && (WellFormedStmt(s, inLoop) == WellFormed(b.value, true))
            else
              WellFormedStmt(s, inLoop) || (ParseExpression(ts).Parsed? && WellFormedStmt(s, inLoop) == CallsFit(ParseExpression(ts).value))
  {
    hide ParseExpression, ParseLoopBody, ParseArm, CallsFit, WellFormed, WellFormedArms;
  }

  lemma StartsNonEmpty(ts: seq<Token>, t: Token)
    ensures StartsWith(ts, t) ==> ts != []
  {
  }

  lemma ParsedExpressionFits(ts: seq<Token>)
    ensures ParseExpression(ts).Parsed? ==> CallsFit(ParseExpression(ts).value)
  {
    hide ParsePrecedence;
    ParsedPrecedenceFits(ts, PREC_ASSIGNMENT);
  }

  lemma {:induction false} ParsedLoopBodyFits(ts: seq<Token>)
    ensures ParseLoopBody(ts).Parsed? ==> WellFormed(ParseLoopBody(ts).value, true)
    decreases |ts|, 7
  {
    hide ParseBlock, WellFormed;
    ParsedBlockFits(ts, true, false);
  }

  lemma {:induction false} ParsedArmFits(ts: seq<Token>, inLoop: bool)
    ensures ParseArm(ts, inLoop).Parsed? ==>
              ParseArm(ts, inLoop).value.Arm? && WellFormedArms(ParseArm(ts, inLoop).value, inLoop)
    decreases |ts|, 7
  {
    ParsedPrecedenceFits(SkipNewlines(ts), PREC_ASSIGNMENT);
    var r := ParseExpression(SkipNewlines(ts));
    if r.Parsed? {
      var rest := SkipNewlines(SkipOptional(SkipNewlines(r.rest), TThen));
      ParsedBlockFits(rest, inLoop, true);
      var b := ParseBlock(rest, inLoop, true);
      if b.Parsed? {
        if StartsWith(b.rest, TElsif) {
          ParsedArmFits(b.rest[1..], inLoop);
        } else if StartsWith(b.rest, TElse) {
          ParsedBlockFits(SkipNewlines(b.rest[1..]), inLoop, false);
        }
      }
    }
  }

  lemma {:induction false} ParsedScriptFits(ts: seq<Token>)
    ensures ParseScript(ts).Parsed? ==> WellFormed(ParseScript(ts).value, false) && ParseScript(ts).rest == []
    decreases |ts|
  {
    var s := SkipNewlines(ts);
    if s != [] {
      ParsedStmtFits(s, false);
      var r := ParseStatement(s, false);
      if r.Parsed? { ParsedScriptFits(r.rest); }
    }
  }

  /** Printing normalises: an accepted script and the print of its tree parse to the same tree. */
  lemma PrintingNormalises(ts: seq<Token>)
    requires ParseScript(ts).Parsed?
    ensures ParseScript(PrintBlock(ParseScript(ts).value)) == ParseScript(ts)
  {
    ParsedScriptFits(ts);
    ScriptRoundTrip(ParseScript(ts).value);
  }
}
