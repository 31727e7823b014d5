/** Small scripts, from their tokens to the globals they leave: what the keywords of loops and conditionals make the
    compiled code do. */
module Programs {
  import opened Syntax
  import opened Runtime
  import opened Machine
  import opened Codegen
  import opened Evaluation
  import Simulation
  import CompilerCorrectness
  import Compiling
  import Printing
  import Parsing
  import Operators
  import Values
  import Chains

  // ---- From a tree to the run of its tokens ----

  /** The tokens, compiled and started with the globals g, stop with the globals g'. */
  ghost predicate Leaves(h: Host, tokens: seq<Token>, slot0: Value, g: Globals, g': Globals) {
    && Chains.ScriptInRange(tokens)
    && Compiling.CompileSpec(tokens).Function?
    && exists n: nat :: Steps(h, Load(Compiling.CompileSpec(tokens).chunk), Simulation.At(0, [slot0], g), n) == Halted(Nil, g')
  }

  lemma RunsTo(h: Host, tokens: seq<Token>, b: Block, slot0: Value, g: Globals, fuel: nat, g': Globals)
    requires Printing.PrintBlock(b) == tokens
    requires Printing.WellFormed(b, false) && ChainsFit(b) && ScriptFits(b)
    requires EvalBlock(h, b, g, 1, fuel) == Normal(g')
    ensures Leaves(h, tokens, slot0, g, g')
  {
    hide *;
    Printing.ScriptRoundTrip(b);
    Chains.ScriptInRangeIff(tokens);
    CompiledIs(tokens, b);
    var n := CompilerCorrectness.CompiledScriptRuns(h, b, slot0, g, fuel);
    Halts(h, tokens, slot0, g, n, EvalBlock(h, b, g, 1, fuel), fuel, g');
  }

  lemma CompiledIs(tokens: seq<Token>, b: Block)
    requires Parsing.ParseScript(tokens) == Parsing.Parsed(b, []) && ScriptFits(b)
    ensures Compiling.CompileSpec(tokens) == Compiling.Function(ScriptChunk(b))
  {
    hide Parsing.ParseScript, ScriptFits, ScriptChunk;
  }

  lemma Halts(h: Host, tokens: seq<Token>, slot0: Value, g: Globals, n: nat, o: Outcome, fuel: nat, g': Globals)
    requires Chains.ScriptInRange(tokens) && Compiling.CompileSpec(tokens).Function? && o == Normal(g')
    requires CompilerCorrectness.Agrees(
               Steps(h, Load(Compiling.CompileSpec(tokens).chunk), Simulation.At(0, [slot0], g), n), n, o, fuel)
    ensures Leaves(h, tokens, slot0, g, g')
  {
    hide Chains.ScriptInRange, Compiling.CompileSpec, Steps;
  }

  // ---- Small scripts are within all limits ----

  lemma {:induction false} SmallExprFits(e: Expr)
    requires ExprSize(e) <= 700
    ensures ExprFits(e) && |ExprConstants(e)| <= ExprSize(e)
    decreases e
  {
    match e
    case Lit(_) =>
    case Var(_) =>
    case Assign(_, value) => SmallExprFits(value);
    case Unary(_, operand) => SmallExprFits(operand);
    case Call(callee, args) =>
      SmallExprFits(callee);
      SmallArgsFit(args);
    case _ =>
      SmallExprFits(e.left);
      SmallExprFits(e.right);
  }

  lemma {:induction false} SmallArgsFit(es: Exprs)
    requires ArgsSize(es) <= 700
    ensures ArgsFit(es) && |ArgsConstants(es)| <= ArgsSize(es)
    decreases es
  {
    if es.ECons? {
      SmallExprFits(es.head);
      SmallArgsFit(es.tail);
    }
  }

  /** In the first 700 bytes nothing is far away. */
  predicate Near(at: nat, size: nat, start: nat, exit: Target) {
    at + size <= 700 && start <= at && (exit.Address? ==> exit.a <= 700)
  }

  lemma {:induction false} SmallStmtFits(s: Stmt, at: nat, start: nat, exit: Target)
    requires Near(at, StmtSize(s), start, exit)
    ensures StmtFits(s, at, start, exit) && |StmtConstants(s)| <= StmtSize(s) && 3 * |StmtBreaks(s, at)| <= StmtSize(s)
    decreases s
  {
    hide ExprSize, ExprFits, ExprConstants, BlockSize, BlockFits, BlockConstants, BlockBreaks, ArmsSize, ArmsFits,
      ArmsConstants, ArmsBreaks;
    match s
    case ExprStmt(e) => SmallExprFits(e);
    case If(arms) => SmallArmsFit(arms, at, start, exit);
    case While(c, b) =>
      SmallExprFits(c);
      SmallBlockFits(b, at + ExprSize(c) + 4, at, Address(at + StmtSize(s)));
    case Until(c, b) =>
      SmallExprFits(c);
      SmallBlockFits(b, at + ExprSize(c) + 5, at, Address(at + StmtSize(s)));
    case Loop(b) => SmallBlockFits(b, at, at, Address(at + StmtSize(s)));
    case Break =>
    case Next =>
  }

  lemma {:induction false} SmallArmsFit(arms: Arms, at: nat, start: nat, exit: Target)
    requires Near(at, ArmsSize(arms), start, exit)
    ensures ArmsFits(arms, at, start, exit) && |ArmsConstants(arms)| <= ArmsSize(arms)
    ensures 3 * |ArmsBreaks(arms, at)| <= ArmsSize(arms)
    decreases arms
  {
    hide ExprSize, ExprFits, ExprConstants, BlockSize, BlockFits, BlockConstants, BlockBreaks;
    match arms
    case Else(b) => SmallBlockFits(b, at, start, exit);
    case Arm(c, b, rest) =>
      SmallExprFits(c);
      SmallBlockFits(b, at + ExprSize(c) + 4, start, exit);
      SmallArmsFit(rest, at + ExprSize(c) + BlockSize(b) + 8, start, exit);
  }

  lemma {:induction false} SmallBlockFits(b: Block, at: nat, start: nat, exit: Target)
    requires Near(at, BlockSize(b), start, exit)
    ensures BlockFits(b, at, start, exit) && |BlockConstants(b)| <= BlockSize(b) && 3 * |BlockBreaks(b, at)| <= BlockSize(b)
    decreases b
  {
    hide StmtSize, StmtFits, StmtConstants, StmtBreaks;
    if b.BCons? {
      SmallStmtFits(b.head, at, start, exit);
      SmallBlockFits(b.tail, at + StmtSize(b.head), start, exit);
    }
  }

  /** A script with no more than 700 bytes of code is within the limits of the format. */
  lemma SmallScriptFits(b: Block)
    requires BlockSize(b) <= 700
    ensures ScriptFits(b)
  {
    hide BlockSize, BlockFits, BlockConstants, BlockBreaks;
    SmallBlockFits(b, 0, 0, Unknown);
  }

  // ---- Single evaluations ----

  lemma VarValue(h: Host, name: string, g: Globals, d: nat)
    requires name in g && d < 10
    ensures Eval(h, Var(name), g, d) == Val(g[name], g)
  {
  }

  lemma NumberValue(h: Host, n: nat, g: Globals, d: nat)
    requires n < 1000 && d < 10
    ensures Eval(h, Lit(IntLit(n)), g, d) == Val(Int(n), g)
  {
  }

  lemma BinaryValue(h: Host, op: BinOp, l: Expr, r: Expr, g: Globals, a: Value, b: Value, v: Value)
    requires Eval(h, l, g, 1) == Val(a, g) && Eval(h, r, g, 2) == Val(b, g) && Apply(h, op, a, b) == Ok(v)
    ensures Eval(h, Binary(op, l, r), g, 1) == Val(v, g)
  {
    hide Apply;
  }

  lemma AssignmentValue(h: Host, name: string, e: Expr, g: Globals, v: Value, fuel: nat)
    requires Eval(h, e, g, 1) == Val(v, g)
    ensures EvalStmt(h, ExprStmt(Assign(name, e)), g, 1, fuel) == Normal(g[name := v])
  {
    assert Eval(h, Assign(name, e), g, 1) == Val(v, g[name := v]);
  }

  lemma TwoStatements(h: Host, s: Stmt, t: Stmt, g: Globals, mid: Globals, fuel: nat)
    requires EvalStmt(h, s, g, 1, fuel) == Normal(mid)
    ensures EvalBlock(h, BCons(s, BCons(t, BNil)), g, 1, fuel) == EvalStmt(h, t, mid, 1, fuel)
  {
    hide EvalStmt;
    assert EvalBlock(h, BCons(t, BNil), mid, 1, fuel) == EvalStmt(h, t, mid, 1, fuel) by { OneStatement(h, t, mid, fuel); }
  }

  lemma OneStatement(h: Host, s: Stmt, g: Globals, fuel: nat)
    ensures EvalBlock(h, BCons(s, BNil), g, 1, fuel) == EvalStmt(h, s, g, 1, fuel)
  {
    hide EvalStmt;
    assert forall g' :: EvalBlock(h, BNil, g', 1, fuel) == Normal(g');
  }

  /** One round of a loop with a condition whose truth is that of `go`. */
  lemma GuardedRound(h: Host, loop: Stmt, go: bool, g: Globals, fuel: nat)
    requires (loop.While? && Eval(h, loop.cond, g, 1) == Val(Bool(go), g))
          || (loop.Until? && Eval(h, loop.cond, g, 1) == Val(Bool(!go), g))
    requires fuel > 0
    ensures !go ==> EvalStmt(h, loop, g, 1, fuel) == Normal(g)
    ensures go ==> match EvalBlock(h, loop.body, g, 1, fuel)
                   case Normal(mid) => EvalStmt(h, loop, g, 1, fuel) == EvalStmt(h, loop, mid, 1, fuel - 1)
                   case Continued(mid) => EvalStmt(h, loop, g, 1, fuel) == EvalStmt(h, loop, mid, 1, fuel - 1)
                   case Broke(mid) => EvalStmt(h, loop, g, 1, fuel) == Normal(mid)
                   case _ => true
  {
    hide EvalBlock, Eval;
    assert EvalStmt(h, loop, g, 1, fuel) == EvalGuarded(h, loop, loop.cond, loop.While?, loop.body, g, 1, fuel);
    if go { RoundAfter(h, loop, loop.body, g, fuel); }
  }

  lemma RoundAfter(h: Host, loop: Stmt, b: Block, g: Globals, fuel: nat)
    requires b < loop && fuel > 0
    ensures match EvalBlock(h, b, g, 1, fuel)
            case Normal(mid) => EvalRound(h, loop, b, g, 1, fuel) == EvalStmt(h, loop, mid, 1, fuel - 1)
            case Continued(mid) => EvalRound(h, loop, b, g, 1, fuel) == EvalStmt(h, loop, mid, 1, fuel - 1)
            case Broke(mid) => EvalRound(h, loop, b, g, 1, fuel) == Normal(mid)
            case _ => true
  {
    hide EvalBlock, EvalStmt;
  }

  // ---- Printed statements ----

  function Leaf(e: Expr): Token
    requires e.Var? || e.Lit?
  {
    if e.Var? then TIdent(e.name) else TLit(e.lit)
  }

  lemma PrintedOperation(op: BinOp, x: string, e: Expr)
    requires e.Var? || e.Lit?
    ensures Printing.PrintExpr(Binary(op, Var(x), e), PREC_ASSIGNMENT) == [TIdent(x), TBin(op), Leaf(e)]
  {
    LeafPrinted(Var(x), BinPrec(op));
    LeafPrinted(e, BinPrec(op) + 1);
    var sum := Binary(op, Var(x), e);
    assert Printing.PrintExpr(sum, PREC_ASSIGNMENT) == Printing.PrintBare(sum);
  }

  lemma LeafPrinted(e: Expr, q: nat)
    requires (e.Var? || e.Lit?) && q <= PREC_PRIMARY
    ensures Printing.PrintExpr(e, q) == [Leaf(e)]
  {
  }

  lemma PrintedAssignment(name: string, op: BinOp, x: string, e: Expr)
    requires e.Var? || e.Lit?
    ensures Printing.PrintStmt(ExprStmt(Assign(name, Binary(op, Var(x), e)))) == [TIdent(name), TEqual, TIdent(x), TBin(op), Leaf(e)]
  {
    PrintedOperation(op, x, e);
    var line := Assign(name, Binary(op, Var(x), e));
    assert Printing.PrintExpr(line, PREC_ASSIGNMENT) == Printing.PrintBare(line);
  }

  lemma PrintedBlock(s: Stmt, b: Block)
    ensures Printing.PrintBlock(BNil) == []
    ensures Printing.PrintBlock(BCons(s, b)) == Printing.PrintStmt(s) + [TNewline] + Printing.PrintBlock(b)
  {
    hide Printing.PrintStmt;
  }

  lemma PrintedLoop(s: Stmt)
    requires s.While? || s.Until?
    ensures Printing.PrintStmt(s) == [if s.While? then TWhile else TUntil] + Printing.PrintExpr(s.cond, PREC_ASSIGNMENT) +
                                     [TNewline] + Printing.PrintBlock(s.body) + [TEnd]
  {
    hide Printing.PrintExpr, Printing.PrintBlock;
  }

  // ---- while ----

  /** while n > 0; s = s + n; n = n - 1; end */
  const SUM_TOKENS: seq<Token> := [
    TWhile, TIdent("n"), TBin(Greater), TLit(IntLit(0)), TNewline,
    TIdent("s"), TEqual, TIdent("s"), TBin(Plus), TIdent("n"), TNewline,
    TIdent("n"), TEqual, TIdent("n"), TBin(Minus), TLit(IntLit(1)), TNewline,
    TEnd, TNewline]

  function NIsPositive(): Expr { Binary(Greater, Var("n"), Lit(IntLit(0))) }

  function AddN(): Stmt { ExprStmt(Assign("s", Binary(Plus, Var("s"), Var("n")))) }

  function CountDown(): Stmt { ExprStmt(Assign("n", Binary(Minus, Var("n"), Lit(IntLit(1))))) }

  function SumLoop(): Stmt { While(NIsPositive(), BCons(AddN(), BCons(CountDown(), BNil))) }

  lemma SumIsPrinted()
    ensures Printing.PrintBlock(BCons(SumLoop(), BNil)) == SUM_TOKENS
  {
    hide Printing.PrintExpr, Printing.PrintStmt, Printing.PrintBlock;
    PrintedOperation(Greater, "n", Lit(IntLit(0)));
    PrintedAssignment("s", Plus, "s", Var("n"));
    PrintedAssignment("n", Minus, "n", Lit(IntLit(1)));
    PrintedBlock(SumLoop(), BNil);
    PrintedBlock(AddN(), BCons(CountDown(), BNil));
    PrintedBlock(CountDown(), BNil);
    PrintedLoop(SumLoop());
  }

  lemma SumFits()
    ensures var b := BCons(SumLoop(), BNil); Printing.WellFormed(b, false) && ChainsFit(b) && ScriptFits(b)
  {
    hide *;
    SumIsWellFormed();
    SumSize();
    SmallScriptFits(BCons(SumLoop(), BNil));
  }

  lemma SumIsWellFormed()
    ensures Printing.WellFormed(BCons(SumLoop(), BNil), false) && ChainsFit(BCons(SumLoop(), BNil))
  {
  }

  lemma SumSize()
    ensures BlockSize(BCons(SumLoop(), BNil)) <= 700
  {
  }

  /** Two integer globals. */
  predicate Holds(g: Globals, n: int, s: int) {
    "n" in g && g["n"] == Int(n) && "s" in g && g["s"] == Int(s)
  }

  lemma PositiveValue(h: Host, g: Globals, n: int, s: int)
    requires Holds(g, n, s)
    ensures Eval(h, NIsPositive(), g, 1) == Val(Bool(n > 0), g)
  {
    hide Apply, Eval;
    VarValue(h, "n", g, 1);
    NumberValue(h, 0, g, 2);
    Operators.IntegerOrder(h, n, 0);
    BinaryValue(h, Greater, Var("n"), Lit(IntLit(0)), g, Int(n), Int(0), Bool(n > 0));
  }

  lemma AddNValue(h: Host, g: Globals, n: int, s: int, fuel: nat)
    requires Holds(g, n, s)
    ensures EvalStmt(h, AddN(), g, 1, fuel) == Normal(g["s" := Int(Values.Wrap48(s + n))])
  {
    hide Apply, Values.Wrap48, Eval, EvalStmt;
    VarValue(h, "s", g, 1);
    VarValue(h, "n", g, 2);
    Operators.Arithmetic(h, s, n);
    Operators.GivesWrapped(Apply(h, Plus, Int(s), Int(n)), s + n);
    var v := Int(Values.Wrap48(s + n));
    BinaryValue(h, Plus, Var("s"), Var("n"), g, Int(s), Int(n), v);
    AssignmentValue(h, "s", Binary(Plus, Var("s"), Var("n")), g, v, fuel);
  }

  lemma CountDownValue(h: Host, g: Globals, n: int, s: int, fuel: nat)
    requires Holds(g, n, s) && 0 < n < 0x8000_0000_0000
    ensures EvalStmt(h, CountDown(), g, 1, fuel) == Normal(g["n" := Int(n - 1)])
  {
    hide Apply, Eval, EvalStmt;
    VarValue(h, "n", g, 1);
    NumberValue(h, 1, g, 2);
    Operators.Arithmetic(h, n, 1);
    Operators.GivesWrapped(Apply(h, Minus, Int(n), Int(1)), n - 1);
    BinaryValue(h, Minus, Var("n"), Lit(IntLit(1)), g, Int(n), Int(1), Int(n - 1));
    AssignmentValue(h, "n", Binary(Minus, Var("n"), Lit(IntLit(1))), g, Int(n - 1), fuel);
  }

  lemma RoundValue(h: Host, g: Globals, n: int, s: int, fuel: nat)
    requires Holds(g, n, s) && 0 < n < 0x8000_0000_0000
    ensures EvalBlock(h, BCons(AddN(), BCons(CountDown(), BNil)), g, 1, fuel)
         == Normal(g["s" := Int(Values.Wrap48(s + n))]["n" := Int(n - 1)])
  {
    hide Values.Wrap48, EvalStmt, AddN, CountDown;
    AddNValue(h, g, n, s, fuel);
    var mid := g["s" := Int(Values.Wrap48(s + n))];
    CountDownValue(h, mid, n, Values.Wrap48(s + n), fuel);
    TwoStatements(h, AddN(), CountDown(), g, mid, fuel);
  }

  lemma {:induction false} SumLoopValue(h: Host, g: Globals, n: nat, s: int, fuel: nat)
    requires Holds(g, n, s) && n < 0x8000_0000_0000 && fuel > n && Operators.Word48(s)
    ensures EvalStmt(h, SumLoop(), g, 1, fuel) == Normal(g["s" := Int(Values.Wrap48(s + n * (n + 1) / 2))]["n" := Int(0)])
    decreases n
  {
    hide Values.Wrap48, NIsPositive, AddN, CountDown, Eval, EvalStmt, EvalBlock, Operators.Word48;
    PositiveValue(h, g, n, s);
    GuardedRound(h, SumLoop(), n > 0, g, fuel);
    if n > 0 {
      var s' := Values.Wrap48(s + n);
      var g' := g["s" := Int(s')]["n" := Int(n - 1)];
      RoundValue(h, g, n, s, fuel);
      WrapsToWord(s + n);
      SumLoopValue(h, g', n - 1, s', fuel - 1);
      Operators.WrapAgain(s + n, (n - 1) * n / 2);
      Triangle(n);
      var v := Int(Values.Wrap48(s + n * (n + 1) / 2));
      assert g'["s" := v]["n" := Int(0)] == g["s" := v]["n" := Int(0)];
    } else {
      WrapsToItself(s);
      assert g["s" := Int(s)]["n" := Int(0)] == g;
    }
  }

  lemma WrapsToWord(i: int)
    ensures Operators.Word48(Values.Wrap48(i))
  {
    Operators.WrapRepresents(i);
  }

  lemma Triangle(n: nat)
    requires n > 0
    ensures n + (n - 1) * n / 2 == n * (n + 1) / 2
  {
    assert n * (n + 1) == (n - 1) * n + 2 * n;
  }

  lemma WrapsToItself(s: int)
    requires Operators.Word48(s)
    ensures Values.Wrap48(s) == s
  {
  }

  /** The script adds the numbers from 1 to n to s, for every n that a script can hold, in 48 bits. */
  lemma SumScript(h: Host, slot0: Value, g: Globals, n: nat, s: int)
    requires Holds(g, n, s) && n < 0x8000_0000_0000 && Operators.Word48(s)
    ensures Leaves(h, SUM_TOKENS, slot0, g, g["s" := Int(Values.Wrap48(s + n * (n + 1) / 2))]["n" := Int(0)])
  {
    hide SumLoop, Values.Wrap48, Leaves, Printing.PrintBlock, Printing.WellFormed, ChainsFit, ScriptFits, SUM_TOKENS;
    var b := BCons(SumLoop(), BNil);
    SumIsPrinted();
    SumFits();
    SumLoopValue(h, g, n, s, n + 1);
    RunsTo(h, SUM_TOKENS, b, slot0, g, n + 1, g["s" := Int(Values.Wrap48(s + n * (n + 1) / 2))]["n" := Int(0)]);
  }

  // ---- until ----

  /** until n == 0; n = n - 1; end */
  const UNTIL_TOKENS: seq<Token> := [
    TUntil, TIdent("n"), TBin(EqualEqual), TLit(IntLit(0)), TNewline,
    TIdent("n"), TEqual, TIdent("n"), TBin(Minus), TLit(IntLit(1)), TNewline,
    TEnd, TNewline]

  function NIsZero(): Expr { Binary(EqualEqual, Var("n"), Lit(IntLit(0))) }

  function UntilLoop(): Stmt { Until(NIsZero(), BCons(CountDown(), BNil)) }

  lemma UntilIsPrinted()
    ensures Printing.PrintBlock(BCons(UntilLoop(), BNil)) == UNTIL_TOKENS
  {
    hide Printing.PrintExpr, Printing.PrintStmt, Printing.PrintBlock;
    PrintedOperation(EqualEqual, "n", Lit(IntLit(0)));
    PrintedAssignment("n", Minus, "n", Lit(IntLit(1)));
    PrintedBlock(UntilLoop(), BNil);
    PrintedBlock(CountDown(), BNil);
    PrintedLoop(UntilLoop());
  }

  lemma UntilFits()
    ensures var b := BCons(UntilLoop(), BNil); Printing.WellFormed(b, false) && ChainsFit(b) && ScriptFits(b)
  {
    hide *;
    UntilIsWellFormed();
    UntilSize();
    SmallScriptFits(BCons(UntilLoop(), BNil));
  }

  lemma UntilIsWellFormed()
    ensures Printing.WellFormed(BCons(UntilLoop(), BNil), false) && ChainsFit(BCons(UntilLoop(), BNil))
  {
  }

  lemma UntilSize()
    ensures BlockSize(BCons(UntilLoop(), BNil)) <= 700
  {
  }

  lemma ZeroValue(h: Host, g: Globals, n: int, s: int)
    requires Holds(g, n, s)
    ensures Eval(h, NIsZero(), g, 1) == Val(Bool(n == 0), g)
  {
    hide Apply, Eval;
    VarValue(h, "n", g, 1);
    NumberValue(h, 0, g, 2);
    Operators.SameOrNot(h, Int(n), Int(0));
    BinaryValue(h, EqualEqual, Var("n"), Lit(IntLit(0)), g, Int(n), Int(0), Bool(n == 0));
  }

  lemma {:induction false} UntilValue(h: Host, g: Globals, n: nat, s: int, fuel: nat)
    requires Holds(g, n, s) && n < 0x8000_0000_0000 && fuel > n
    ensures EvalStmt(h, UntilLoop(), g, 1, fuel) == Normal(g["n" := Int(0)])
    decreases n
  {
    hide NIsZero, CountDown, Eval, EvalStmt, EvalBlock;
    ZeroValue(h, g, n, s);
    GuardedRound(h, UntilLoop(), n != 0, g, fuel);
    if n > 0 {
      CountDownValue(h, g, n, s, fuel);
      OneStatement(h, CountDown(), g, fuel);
      UntilValue(h, g["n" := Int(n - 1)], n - 1, s, fuel - 1);
      assert g["n" := Int(n - 1)]["n" := Int(0)] == g["n" := Int(0)];
    } else {
      assert g["n" := Int(0)] == g;
    }
  }

  /** The body of until runs as long as its condition is false: n is counted down to 0. */
  lemma UntilScript(h: Host, slot0: Value, g: Globals, n: nat, s: int)
    requires Holds(g, n, s) && n < 0x8000_0000_0000
    ensures Leaves(h, UNTIL_TOKENS, slot0, g, g["n" := Int(0)])
  {
    hide *;
    UntilIsPrinted();
    UntilFits();
    UntilValue(h, g, n, s, n + 1);
    OneStatement(h, UntilLoop(), g, n + 1);
    RunsTo(h, UNTIL_TOKENS, BCons(UntilLoop(), BNil), slot0, g, n + 1, g["n" := Int(0)]);
  }

  // ---- loop, break and next ----

  /** loop; if n == 0; break; end; n = n - 1; next; s = s + n; end */
  const LOOP_TOKENS: seq<Token> := [
    TLoop, TIf, TIdent("n"), TBin(EqualEqual), TLit(IntLit(0)), TNewline, TBreak, TNewline, TEnd, TNewline,
    TIdent("n"), TEqual, TIdent("n"), TBin(Minus), TLit(IntLit(1)), TNewline,
    TNext, TNewline,
    TIdent("s"), TEqual, TIdent("s"), TBin(Plus), TIdent("n"), TNewline,
    TEnd, TNewline]

  function LeaveAtZero(): Stmt { If(Arm(NIsZero(), BCons(Break, BNil), Else(BNil))) }

  function LoopBody(): Block { BCons(LeaveAtZero(), BCons(CountDown(), BCons(Next, BCons(AddN(), BNil)))) }

  function EndlessLoop(): Stmt { Loop(LoopBody()) }

  lemma LoopIsPrinted()
    ensures Printing.PrintBlock(BCons(EndlessLoop(), BNil)) == LOOP_TOKENS
  {
    hide Printing.PrintExpr, Printing.PrintStmt, Printing.PrintBlock, LeaveAtZero;
    ExitIsPrinted();
    PrintedAssignment("n", Minus, "n", Lit(IntLit(1)));
    PrintedAssignment("s", Plus, "s", Var("n"));
    PrintedBlock(EndlessLoop(), BNil);
    PrintedBlock(LeaveAtZero(), BCons(CountDown(), BCons(Next, BCons(AddN(), BNil))));
    PrintedBlock(CountDown(), BCons(Next, BCons(AddN(), BNil)));
    PrintedBlock(Next, BCons(AddN(), BNil));
    PrintedBlock(AddN(), BNil);
    PrintedOthers(LoopBody());
  }

  lemma PrintedOthers(b: Block)
    ensures Printing.PrintStmt(Loop(b)) == [TLoop] + Printing.PrintBlock(b) + [TEnd]
    ensures Printing.PrintStmt(Break) == [TBreak] && Printing.PrintStmt(Next) == [TNext]
  {
    hide Printing.PrintBlock;
  }

  lemma ExitIsPrinted()
    ensures Printing.PrintStmt(LeaveAtZero())
         == [TIf, TIdent("n"), TBin(EqualEqual), TLit(IntLit(0)), TNewline, TBreak, TNewline, TEnd]
  {
    hide Printing.PrintExpr, Printing.PrintBlock;
    PrintedOperation(EqualEqual, "n", Lit(IntLit(0)));
    PrintedBlock(Break, BNil);
  }

  lemma LoopFits()
    ensures var b := BCons(EndlessLoop(), BNil); Printing.WellFormed(b, false) && ChainsFit(b) && ScriptFits(b)
  {
    hide *;
    LoopIsWellFormed();
    LoopSize();
    SmallScriptFits(BCons(EndlessLoop(), BNil));
  }

  lemma LoopIsWellFormed()
    ensures Printing.WellFormed(BCons(EndlessLoop(), BNil), false) && ChainsFit(BCons(EndlessLoop(), BNil))
  {
  }

  lemma LoopSize()
    ensures BlockSize(BCons(EndlessLoop(), BNil)) <= 700
  {
    assert BlockSize(BCons(Next, BCons(AddN(), BNil))) <= 100;
    assert StmtSize(LeaveAtZero()) <= 100;
    assert StmtSize(CountDown()) <= 100;
    assert BlockSize(LoopBody()) <= 600;
  }

  lemma ExitValue(h: Host, g: Globals, n: int, s: int, fuel: nat)
    requires Holds(g, n, s)
    ensures EvalStmt(h, LeaveAtZero(), g, 1, fuel) == if n == 0 then Broke(g) else Normal(g)
  {
    hide NIsZero, Eval;
    ZeroValue(h, g, n, s);
    assert EvalBlock(h, BCons(Break, BNil), g, 1, fuel) == Broke(g);
    assert EvalArms(h, Else(BNil), g, 1, fuel) == Normal(g);
    assert EvalStmt(h, LeaveAtZero(), g, 1, fuel) == EvalArms(h, LeaveAtZero().arms, g, 1, fuel);
  }

  lemma LoopBodyValue(h: Host, g: Globals, n: nat, s: int, fuel: nat)
    requires Holds(g, n, s) && n < 0x8000_0000_0000
    ensures EvalBlock(h, LoopBody(), g, 1, fuel) == if n == 0 then Broke(g) else Continued(g["n" := Int(n - 1)])
  {
    hide LeaveAtZero, CountDown, AddN, EvalStmt;
    ExitValue(h, g, n, s, fuel);
    if n > 0 {
      CountDownValue(h, g, n, s, fuel);
      NextValue(h, BCons(AddN(), BNil), g["n" := Int(n - 1)], fuel);
      assert EvalBlock(h, BCons(CountDown(), BCons(Next, BCons(AddN(), BNil))), g, 1, fuel) == Continued(g["n" := Int(n - 1)]);
    }
  }

  lemma NextValue(h: Host, b: Block, g: Globals, fuel: nat)
    ensures EvalBlock(h, BCons(Next, b), g, 1, fuel) == Continued(g)
  {
  }

  lemma {:induction false} LoopValue(h: Host, g: Globals, n: nat, s: int, fuel: nat)
    requires Holds(g, n, s) && n < 0x8000_0000_0000 && fuel > n
    ensures EvalStmt(h, EndlessLoop(), g, 1, fuel) == Normal(g["n" := Int(0)])
    decreases n
  {
    hide LoopBody, EvalBlock, EvalRound;
    LoopBodyValue(h, g, n, s, fuel);
    RoundAfter(h, EndlessLoop(), LoopBody(), g, fuel);
    assert EvalStmt(h, EndlessLoop(), g, 1, fuel) == EvalRound(h, EndlessLoop(), LoopBody(), g, 1, fuel);
    if n > 0 {
      LoopValue(h, g["n" := Int(n - 1)], n - 1, s, fuel - 1);
      assert g["n" := Int(n - 1)]["n" := Int(0)] == g["n" := Int(0)];
    } else {
      assert g["n" := Int(0)] == g;
    }
  }

  /** break leaves the loop, and what stands behind next is never run: n is counted down to 0, and s stays. */
  lemma LoopScript(h: Host, slot0: Value, g: Globals, n: nat, s: int)
    requires Holds(g, n, s) && n < 0x8000_0000_0000
    ensures Leaves(h, LOOP_TOKENS, slot0, g, g["n" := Int(0)])
  {
    hide *;
    LoopIsPrinted();
    LoopFits();
    LoopValue(h, g, n, s, n + 1);
    OneStatement(h, EndlessLoop(), g, n + 1);
    RunsTo(h, LOOP_TOKENS, BCons(EndlessLoop(), BNil), slot0, g, n + 1, g["n" := Int(0)]);
  }

  // ---- if, elsif and else ----

  /** if a; x = 1; elsif b; x = 2; else x = 3; end */
  const IF_TOKENS: seq<Token> := [
    TIf, TIdent("a"), TNewline, TIdent("x"), TEqual, TLit(IntLit(1)), TNewline,
    TElsif, TIdent("b"), TNewline, TIdent("x"), TEqual, TLit(IntLit(2)), TNewline,
    TElse, TIdent("x"), TEqual, TLit(IntLit(3)), TNewline,
    TEnd, TNewline]

  function SetX(n: nat): Block { BCons(ExprStmt(Assign("x", Lit(IntLit(n)))), BNil) }

  function Choices(): Arms { Arm(Var("a"), SetX(1), Arm(Var("b"), SetX(2), Else(SetX(3)))) }

  lemma SetXIsPrinted(n: nat)
    ensures Printing.PrintBlock(SetX(n)) == [TIdent("x"), TEqual, TLit(IntLit(n)), TNewline]
  {
    hide Printing.PrintExpr;
    var line := Assign("x", Lit(IntLit(n)));
    LeafPrinted(Lit(IntLit(n)), PREC_ASSIGNMENT);
    PrintedBlock(ExprStmt(line), BNil);
    assert Printing.PrintExpr(line, PREC_ASSIGNMENT) == [TIdent("x"), TEqual, TLit(IntLit(n))] by { PrintedSet(line); }
  }

  lemma PrintedSet(e: Expr)
    requires e.Assign?
    ensures Printing.PrintExpr(e, PREC_ASSIGNMENT) == [TIdent(e.name), TEqual] + Printing.PrintExpr(e.value, PREC_ASSIGNMENT)
  {
    assert Printing.PrintExpr(e, PREC_ASSIGNMENT) == Printing.PrintBare(e);
  }

  lemma IfIsPrinted()
    ensures Printing.PrintBlock(BCons(If(Choices()), BNil)) == IF_TOKENS
  {
    hide Printing.PrintExpr, Printing.PrintBlock, SetX;
    SetXIsPrinted(1);
    SetXIsPrinted(2);
    SetXIsPrinted(3);
    LeafPrinted(Var("a"), PREC_ASSIGNMENT);
    LeafPrinted(Var("b"), PREC_ASSIGNMENT);
    PrintedBlock(If(Choices()), BNil);
    var tail := Arm(Var("b"), SetX(2), Else(SetX(3)));
    assert SetX(3) != BNil by { SetXIsSome(3); }
    assert Printing.PrintArmTail(Else(SetX(3))) == [TElse] + Printing.PrintBlock(SetX(3));
    assert Printing.PrintArmTail(tail) == [TElsif, TIdent("b"), TNewline] + Printing.PrintBlock(SetX(2)) + Printing.PrintArmTail(Else(SetX(3)));
  }

  lemma SetXIsSome(n: nat)
    ensures SetX(n) != BNil
  {
  }

  lemma IfFits()
    ensures var b := BCons(If(Choices()), BNil); Printing.WellFormed(b, false) && ChainsFit(b) && ScriptFits(b)
  {
    hide *;
    IfIsWellFormed();
    IfSize();
    SmallScriptFits(BCons(If(Choices()), BNil));
  }

  lemma IfIsWellFormed()
    ensures Printing.WellFormed(BCons(If(Choices()), BNil), false) && ChainsFit(BCons(If(Choices()), BNil))
  {
    hide SetX;
    SetXIsWellFormed(1);
    SetXIsWellFormed(2);
    SetXIsWellFormed(3);
    var last := Else(SetX(3));
    var second := Arm(Var("b"), SetX(2), last);
    assert Printing.WellFormedArms(last, false) && ArmsChainsFit(last) && ArmCount(last) == 0;
    assert Printing.WellFormedArms(second, false) && ArmsChainsFit(second) && ArmCount(second) == 1;
    assert Printing.WellFormedArms(Choices(), false) && ArmsChainsFit(Choices()) && ArmCount(Choices()) == 2;
    assert Printing.WellFormedStmt(If(Choices()), false) && StmtChainsFit(If(Choices()));
  }

  lemma SetXIsWellFormed(n: nat)
    ensures Printing.WellFormed(SetX(n), false) && ChainsFit(SetX(n))
  {
    assert Printing.WellFormedStmt(SetX(n).head, false);
  }

  lemma IfSize()
    ensures BlockSize(BCons(If(Choices()), BNil)) <= 700
  {
  }

  lemma SetXValue(h: Host, n: nat, g: Globals, fuel: nat)
    requires n < 1000
    ensures EvalBlock(h, SetX(n), g, 1, fuel) == Normal(g["x" := Int(n)])
  {
    hide Eval, EvalStmt;
    NumberValue(h, n, g, 1);
    AssignmentValue(h, "x", Lit(IntLit(n)), g, Int(n), fuel);
    OneStatement(h, ExprStmt(Assign("x", Lit(IntLit(n)))), g, fuel);
  }

  lemma ChoiceValue(h: Host, c: Expr, b: Block, rest: Arms, g: Globals, v: Value)
    requires Eval(h, c, g, 1) == Val(v, g)
    ensures EvalArms(h, Arm(c, b, rest), g, 1, 0)
         == if v == Nil || v == Bool(false) then EvalArms(h, rest, g, 1, 0) else EvalBlock(h, b, g, 1, 0)
  {
    hide EvalBlock, Eval, Falsy;
    Operators.Truth(h, v);
  }

  lemma ChoicesValue(h: Host, g: Globals)
    requires "a" in g && "b" in g
    ensures EvalStmt(h, If(Choices()), g, 1, 0)
         == Normal(g["x" := Int(if g["a"] !in {Nil, Bool(false)} then 1 else if g["b"] !in {Nil, Bool(false)} then 2 else 3)])
  {
    hide Eval, EvalBlock, EvalArms, SetX;
    VarValue(h, "a", g, 1);
    VarValue(h, "b", g, 1);
    SetXValue(h, 1, g, 0);
    SetXValue(h, 2, g, 0);
    SetXValue(h, 3, g, 0);
    ChoiceValue(h, Var("a"), SetX(1), Arm(Var("b"), SetX(2), Else(SetX(3))), g, g["a"]);
    ChoiceValue(h, Var("b"), SetX(2), Else(SetX(3)), g, g["b"]);
    LastChoice(h, SetX(3), g);
  }

  lemma LastChoice(h: Host, b: Block, g: Globals)
    ensures EvalArms(h, Else(b), g, 1, 0) == EvalBlock(h, b, g, 1, 0)
  {
    hide EvalBlock;
  }

  /** The first condition that is neither nil nor false decides, and the else block is run if there is none. */
  lemma IfScript(h: Host, slot0: Value, g: Globals)
    requires "a" in g && "b" in g
    ensures Leaves(h, IF_TOKENS, slot0, g,
              g["x" := Int(if g["a"] !in {Nil, Bool(false)} then 1 else if g["b"] !in {Nil, Bool(false)} then 2 else 3)])
  {
    hide *;
    IfIsPrinted();
    IfFits();
    ChoicesValue(h, g);
    OneStatement(h, If(Choices()), g, 0);
    RunsTo(h, IF_TOKENS, BCons(If(Choices()), BNil), slot0, g, 0,
      g["x" := Int(if g["a"] !in {Nil, Bool(false)} then 1 else if g["b"] !in {Nil, Bool(false)} then 2 else 3)]);
  }

  // ---- and, or and calls ----

  /** x = a and b; y = a or b */
  const LOGIC_TOKENS: seq<Token> := [
    TIdent("x"), TEqual, TIdent("a"), TAnd, TIdent("b"), TNewline,
    TIdent("y"), TEqual, TIdent("a"), TOr, TIdent("b"), TNewline]

  function SetXToAnd(): Stmt { ExprStmt(Assign("x", And(Var("a"), Var("b")))) }

  function SetYToOr(): Stmt { ExprStmt(Assign("y", Or(Var("a"), Var("b")))) }

  function Logic(): Block { BCons(SetXToAnd(), BCons(SetYToOr(), BNil)) }

  lemma LogicIsPrinted()
    ensures Printing.PrintBlock(Logic()) == LOGIC_TOKENS
  {
    hide Printing.PrintExpr, Printing.PrintBlock;
    PrintedLogic(And(Var("a"), Var("b")));
    PrintedLogic(Or(Var("a"), Var("b")));
    PrintedSet(SetXToAnd().e);
    PrintedSet(SetYToOr().e);
    PrintedBlock(SetXToAnd(), BCons(SetYToOr(), BNil));
    PrintedBlock(SetYToOr(), BNil);
  }

  lemma PrintedLogic(e: Expr)
    requires (e.And? || e.Or?) && e.left.Var? && e.right.Var?
    ensures Printing.PrintExpr(e, PREC_ASSIGNMENT) == [TIdent(e.left.name), if e.And? then TAnd else TOr, TIdent(e.right.name)]
  {
    LeafPrinted(e.left, if e.And? then PREC_AND + 1 else PREC_OR + 1);
    LeafPrinted(e.right, if e.And? then PREC_AND else PREC_OR);
    assert Printing.PrintExpr(e, PREC_ASSIGNMENT) == Printing.PrintBare(e);
  }

  lemma LogicFits()
    ensures Printing.WellFormed(Logic(), false) && ChainsFit(Logic()) && ScriptFits(Logic())
  {
    hide *;
    LogicIsWellFormed();
    LogicSize();
    SmallScriptFits(Logic());
  }

  lemma LogicIsWellFormed()
    ensures Printing.WellFormed(Logic(), false) && ChainsFit(Logic())
  {
    hide Printing.WellFormedStmt, StmtChainsFit;
    ExpressionIsWellFormed(And(Var("a"), Var("b")), "x");
    ExpressionIsWellFormed(Or(Var("a"), Var("b")), "y");
    var last := BCons(SetYToOr(), BNil);
    assert Printing.WellFormed(last, false) && ChainsFit(last);
  }

  lemma ExpressionIsWellFormed(e: Expr, name: string)
    requires Printing.CallsFit(e)
    ensures Printing.WellFormedStmt(ExprStmt(Assign(name, e)), false) && StmtChainsFit(ExprStmt(Assign(name, e)))
  {
  }

  lemma LogicSize()
    ensures BlockSize(Logic()) <= 700
  {
  }

  lemma LogicValue(h: Host, g: Globals)
    requires "a" in g && "b" in g
    ensures EvalBlock(h, Logic(), g, 1, 0) ==
            if g["a"] in {Nil, Bool(false)} then Normal(g["x" := g["a"]]["y" := g["b"]])
            else Normal(g["x" := g["b"]]["y" := g["a"]])
  {
    hide EvalStmt, EvalBlock, Falsy;
    Operators.Truth(h, g["a"]);
    var v, w := if Falsy(g["a"]) then g["a"] else g["b"], if Falsy(g["a"]) then g["b"] else g["a"];
    var mid := g["x" := v];
    assert Eval(h, And(Var("a"), Var("b")), g, 1) == Val(v, g);
    assert Eval(h, Or(Var("a"), Var("b")), mid, 1) == Val(w, mid);
    AssignmentValue(h, "x", And(Var("a"), Var("b")), g, v, 0);
    AssignmentValue(h, "y", Or(Var("a"), Var("b")), mid, w, 0);
    TwoStatements(h, SetXToAnd(), SetYToOr(), g, mid, 0);
  }

  /** `and` gives the left operand if that is nil or false, and the right one otherwise; `or` the other way round. */
  lemma LogicScript(h: Host, slot0: Value, g: Globals)
    requires "a" in g && "b" in g
    ensures Leaves(h, LOGIC_TOKENS, slot0, g,
              if g["a"] in {Nil, Bool(false)} then g["x" := g["a"]]["y" := g["b"]] else g["x" := g["b"]]["y" := g["a"]])
  {
    hide *;
    LogicIsPrinted();
    LogicFits();
    LogicValue(h, g);
    RunsTo(h, LOGIC_TOKENS, Logic(), slot0, g, 0,
      if g["a"] in {Nil, Bool(false)} then g["x" := g["a"]]["y" := g["b"]] else g["x" := g["b"]]["y" := g["a"]]);
  }

  /** x = f(a, b) */
  const CALL_TOKENS: seq<Token> := [
    TIdent("x"), TEqual, TIdent("f"), TLParen, TIdent("a"), TComma, TIdent("b"), TRParen, TNewline]

  function CallF(): Expr { Call(Var("f"), ECons(Var("a"), ECons(Var("b"), ENil))) }

  function Calling(): Block { BCons(ExprStmt(Assign("x", CallF())), BNil) }

  lemma CallIsPrinted()
    ensures Printing.PrintBlock(Calling()) == CALL_TOKENS
  {
    hide Printing.PrintExpr, Printing.PrintBlock, Printing.PrintArguments;
    LeafPrinted(Var("f"), PREC_CALL);
    ArgumentsArePrinted();
    assert Printing.PrintExpr(CallF(), PREC_ASSIGNMENT) == [TIdent("f"), TLParen, TIdent("a"), TComma, TIdent("b"), TRParen]
      by { CallIsBare(CallF()); }
    PrintedSet(Assign("x", CallF()));
    PrintedBlock(ExprStmt(Assign("x", CallF())), BNil);
  }

  lemma CallIsBare(e: Expr)
    requires e.Call?
    ensures Printing.PrintExpr(e, PREC_ASSIGNMENT)
         == Printing.PrintExpr(e.callee, PREC_CALL) + [TLParen] + Printing.PrintArguments(e.args) + [TRParen]
  {
    assert Printing.PrintExpr(e, PREC_ASSIGNMENT) == Printing.PrintBare(e);
  }

  lemma ArgumentsArePrinted()
    ensures Printing.PrintArguments(ECons(Var("a"), ECons(Var("b"), ENil))) == [TIdent("a"), TComma, TIdent("b")]
  {
    LeafPrinted(Var("a"), PREC_ASSIGNMENT);
    LeafPrinted(Var("b"), PREC_ASSIGNMENT);
    assert Printing.PrintArguments(ECons(Var("b"), ENil)) == [TIdent("b")];
  }

  lemma CallFits()
    ensures Printing.WellFormed(Calling(), false) && ChainsFit(Calling()) && ScriptFits(Calling())
  {
    hide *;
    CallIsWellFormed();
    CallSize();
    SmallScriptFits(Calling());
  }

  lemma CallIsWellFormed()
    ensures Printing.WellFormed(Calling(), false) && ChainsFit(Calling())
  {
  }

  lemma CallSize()
    ensures BlockSize(Calling()) <= 700
  {
  }

  lemma CallFValue(h: Host, g: Globals, id: nat, v: Value, g': Globals)
    requires "a" in g && "b" in g && "f" in g && g["f"] == Native(id) && h.arity(id) == 2
    requires h.native(id, [g["a"], g["b"]], g, 4) == Called(Ok(v), g')
    ensures Eval(h, CallF(), g, 1) == Val(v, g')
  {
    hide CallValue;
    VarValue(h, "f", g, 1);
    VarValue(h, "a", g, 2);
    VarValue(h, "b", g, 3);
    assert EvalArgs(h, ECons(Var("b"), ENil), g, 3) == Vals([g["b"]], g);
    assert EvalArgs(h, CallF().args, g, 2) == Vals([g["a"], g["b"]], g);
    Operators.Calls(h, Native(id), [g["a"], g["b"]], g, 4);
  }

  /** A native function gets its arguments in their order, with the slot of the script, itself and them on the stack. */
  lemma CallScript(h: Host, slot0: Value, g: Globals, id: nat, v: Value, g': Globals)
    requires "a" in g && "b" in g && "f" in g && g["f"] == Native(id) && h.arity(id) == 2
    requires h.native(id, [g["a"], g["b"]], g, 4) == Called(Ok(v), g')
    ensures Leaves(h, CALL_TOKENS, slot0, g, g'["x" := v])
  {
    hide *;
    CallIsPrinted();
    CallFits();
    CallFValue(h, g, id, v, g');
    CallingValue(h, g, v, g');
    RunsTo(h, CALL_TOKENS, Calling(), slot0, g, 0, g'["x" := v]);
  }

  lemma CallingValue(h: Host, g: Globals, v: Value, g': Globals)
    requires Eval(h, CallF(), g, 1) == Val(v, g')
    ensures EvalBlock(h, Calling(), g, 1, 0) == Normal(g'["x" := v])
  {
    hide CallF;
    assert Eval(h, Assign("x", CallF()), g, 1) == Val(v, g'["x" := v]);
    OneStatement(h, ExprStmt(Assign("x", CallF())), g, 0);
  }
}
