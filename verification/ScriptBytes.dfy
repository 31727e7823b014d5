/** What the compiler writes, byte by byte, for scripts that together use every instruction: the numbers of the
    OpCode enumeration in src/chunk.h, operands with their low byte first, and jumps counted from behind themselves. */
module ScriptBytes {
  import opened Syntax
  import opened Runtime
  import opened Machine
  import opened Codegen
  import opened Programs
  import opened Bytes
  import Compiling
  import Printing
  import Values

  ghost predicate CompilesTo(tokens: seq<Token>, code: seq<Byte>, constants: seq<Value>) {
    Compiling.CompileSpec(tokens) == Compiling.Function(Chunk(code, constants))
  }

  lemma Compiles(tokens: seq<Token>, b: Block, code: seq<Byte>, constants: seq<Value>)
    requires Printing.PrintBlock(b) == tokens && Printing.WellFormed(b, false) && ScriptFits(b)
    requires BlockCode(b, 0, 0, 0, Unknown) == code && BlockConstants(b) == constants
    ensures CompilesTo(tokens, code + [1, 38], constants)
  {
    hide BlockCode, BlockConstants, Printing.WellFormed, Printing.PrintBlock, ScriptFits;
    Printing.ScriptRoundTrip(b);
    CompiledIs(tokens, b);
  }

  // ---- The parts ----

  function LeafBytes(e: Expr, k: Byte): seq<Byte>
    requires e.Var? || e.Lit?
  {
    [if e.Var? then 28 else 0, k, 0]
  }

  function LeafValue(e: Expr): Value
    requires e.Var? || (e.Lit? && e.lit.IntLit?)
  {
    if e.Var? then Str(e.name) else Int(e.lit.n)
  }

  /** A name or a small number. */
  predicate Simple(e: Expr) {
    e.Var? || (e.Lit? && e.lit.IntLit? && e.lit.n < 1000)
  }

  lemma LeafCode(e: Expr, k: nat)
    requires k < 256 && Simple(e)
    ensures ExprCode(e, k) == LeafBytes(e, k) && ExprConstants(e) == [LeafValue(e)] && ExprSize(e) == 3
  {
  }

  lemma OperationCode(op: BinOp, x: Expr, y: Expr, k: nat)
    requires k < 255 && Simple(x) && Simple(y)
    ensures ExprCode(Binary(op, x, y), k) == LeafBytes(x, k) + LeafBytes(y, k + 1) + [BinOpcode(BinaryCode(op))]
    ensures ExprConstants(Binary(op, x, y)) == [LeafValue(x), LeafValue(y)] && ExprSize(Binary(op, x, y)) == 7
  {
    hide ExprCode, ExprConstants, LeafBytes, LeafValue, BinOpcode, BinaryCode;
    LeafCode(x, k);
    LeafCode(y, k + 1);
    CodeOfBinary(Binary(op, x, y), k);
  }

  lemma LineCode(e: Expr, b: Block, at: nat, k: nat, start: nat, exit: Target)
    ensures BlockCode(BCons(ExprStmt(e), b), at, k, start, exit)
         == ExprCode(e, k) + [24] + BlockCode(b, at + ExprSize(e) + 1, k + |ExprConstants(e)|, start, exit)
    ensures BlockConstants(BCons(ExprStmt(e), b)) == ExprConstants(e) + BlockConstants(b)
    ensures BlockSize(BCons(ExprStmt(e), b)) == ExprSize(e) + 1 + BlockSize(b)
  {
    hide ExprCode, ExprConstants, ExprSize;
  }

  lemma NoCode(at: nat, k: nat, start: nat, exit: Target)
    ensures BlockCode(BNil, at, k, start, exit) == [] && BlockConstants(BNil) == [] && BlockSize(BNil) == 0
  {
  }

  lemma AssignmentCode(name: string, e: Expr, k: nat)
    requires k < 256
    ensures ExprCode(Assign(name, e), k) == ExprCode(e, k + 1) + [29, k, 0]
    ensures ExprConstants(Assign(name, e)) == [Str(name)] + ExprConstants(e) && ExprSize(Assign(name, e)) == ExprSize(e) + 3
  {
    hide ExprCode, ExprConstants;
    CodeOfAssign(Assign(name, e), k);
  }

  // ---- Operators ----

  lemma OperatorCompiles(op: BinOp, n: Byte)
    requires BinOpcode(BinaryCode(op)) == n
    ensures CompilesTo([TIdent("a"), TBin(op), TIdent("b"), TNewline], [28, 0, 0, 28, 1, 0, n, 24, 1, 38], [Str("a"), Str("b")])
  {
    hide *;
    var e := Binary(op, Var("a"), Var("b"));
    OperatorPrinted(op);
    OperatorFits(op);
    OperatorCode(op, n);
    Compiles([TIdent("a"), TBin(op), TIdent("b"), TNewline], BCons(ExprStmt(e), BNil),
             [28, 0, 0, 28, 1, 0, n, 24], [Str("a"), Str("b")]);
    assert [28, 0, 0, 28, 1, 0, n, 24] + [1, 38] == [28, 0, 0, 28, 1, 0, n, 24, 1, 38];
  }

  lemma OperatorPrinted(op: BinOp)
    ensures Printing.PrintBlock(BCons(ExprStmt(Binary(op, Var("a"), Var("b"))), BNil))
         == [TIdent("a"), TBin(op), TIdent("b"), TNewline]
  {
    hide Printing.PrintExpr, Printing.PrintBlock;
    PrintedOperation(op, "a", Var("b"));
    PrintedBlock(ExprStmt(Binary(op, Var("a"), Var("b"))), BNil);
  }

  lemma OperatorFits(op: BinOp)
    ensures var b := BCons(ExprStmt(Binary(op, Var("a"), Var("b"))), BNil); Printing.WellFormed(b, false) && ScriptFits(b)
  {
    hide *;
    OneLineFits(Binary(op, Var("a"), Var("b"))) by { OperatorIsSmall(op); }
  }

  lemma OperatorIsSmall(op: BinOp)
    ensures var e := Binary(op, Var("a"), Var("b")); Printing.CallsFit(e) && ExprSize(e) <= 600
  {
  }

  lemma OneLineFits(e: Expr)
    requires Printing.CallsFit(e) && ExprSize(e) <= 600
    ensures Printing.WellFormed(BCons(ExprStmt(e), BNil), false) && ScriptFits(BCons(ExprStmt(e), BNil))
  {
    hide Printing.CallsFit, ExprSize, ScriptFits;
    SmallScriptFits(BCons(ExprStmt(e), BNil));
    assert Printing.WellFormedStmt(ExprStmt(e), false);
  }

  lemma OperatorCode(op: BinOp, n: Byte)
    requires BinOpcode(BinaryCode(op)) == n
    ensures var b := BCons(ExprStmt(Binary(op, Var("a"), Var("b"))), BNil);
            && BlockCode(b, 0, 0, 0, Unknown) == [28, 0, 0, 28, 1, 0, n, 24]
            && BlockConstants(b) == [Str("a"), Str("b")]
  {
    hide ExprCode, ExprConstants, ExprSize, BlockCode, BlockConstants, BlockSize, BinOpcode, BinaryCode;
    OperationCode(op, Var("a"), Var("b"), 0);
    LineCode(Binary(op, Var("a"), Var("b")), BNil, 0, 0, 0, Unknown);
    NoCode(8, 2, 0, Unknown);
  }

  const FROM_4: seq<BinOp> := [Plus, Minus, Star, Slash, Percent]
  const FROM_11: seq<BinOp> := [Amp, Pipe, Caret]
  const FROM_15: seq<BinOp> := [LShift, RShift, EqualEqual, BangEqual, Less, LessEqual, Greater, GreaterEqual]

  /** The opcodes of the binary operators: in the order of the enumeration, from 4, 11 and 15 on, and 48. */
  lemma OperatorsCompile(op: BinOp, i: nat)
    ensures i < 5 && op == FROM_4[i] ==>
              CompilesTo([TIdent("a"), TBin(op), TIdent("b"), TNewline], [28, 0, 0, 28, 1, 0, 4 + i, 24, 1, 38], [Str("a"), Str("b")])
    ensures i < 3 && op == FROM_11[i] ==>
              CompilesTo([TIdent("a"), TBin(op), TIdent("b"), TNewline], [28, 0, 0, 28, 1, 0, 11 + i, 24, 1, 38], [Str("a"), Str("b")])
    ensures i < 8 && op == FROM_15[i] ==>
              CompilesTo([TIdent("a"), TBin(op), TIdent("b"), TNewline], [28, 0, 0, 28, 1, 0, 15 + i, 24, 1, 38], [Str("a"), Str("b")])
    ensures op == StarStar ==>
              CompilesTo([TIdent("a"), TBin(op), TIdent("b"), TNewline], [28, 0, 0, 28, 1, 0, 48, 24, 1, 38], [Str("a"), Str("b")])
  {
    hide CompilesTo;
    OperatorCompiles(op, BinOpcode(BinaryCode(op)));
  }

  // ---- Statements ----

  /** The bytes of `while n > 0; s = s + n; n = n - 1; end`. */
  lemma WhileCompiles()
    ensures CompilesTo(SUM_TOKENS,
              [28, 0, 0, 0, 1, 0, 21, 35, 26, 0, 24] +
              [28, 3, 0, 28, 4, 0, 4, 29, 2, 0, 24] +
              [28, 6, 0, 0, 7, 0, 5, 29, 5, 0, 24] +
              [36, 36, 0, 24] + [1, 38],
              [Str("n"), Int(0), Str("s"), Str("s"), Str("n"), Str("n"), Str("n"), Int(1)])
  {
    hide *;
    SumIsPrinted();
    SumFits();
    WhileCode();
    Compiles(SUM_TOKENS, BCons(SumLoop(), BNil),
              [28, 0, 0, 0, 1, 0, 21, 35, 26, 0, 24] +
              [28, 3, 0, 28, 4, 0, 4, 29, 2, 0, 24] +
              [28, 6, 0, 0, 7, 0, 5, 29, 5, 0, 24] +
              [36, 36, 0, 24],
              [Str("n"), Int(0), Str("s"), Str("s"), Str("n"), Str("n"), Str("n"), Int(1)]);
  }

  lemma AddNCode(b: Block, at: nat, k: nat, start: nat, exit: Target)
    requires k < 200
    ensures BlockCode(BCons(AddN(), b), at, k, start, exit)
         == [28, k + 1, 0, 28, k + 2, 0, 4, 29, k, 0, 24] + BlockCode(b, at + 11, k + 3, start, exit)
    ensures BlockConstants(BCons(AddN(), b)) == [Str("s"), Str("s"), Str("n")] + BlockConstants(b)
    ensures BlockSize(BCons(AddN(), b)) == 11 + BlockSize(b)
  {
    hide ExprCode, ExprConstants, ExprSize, BlockCode, BlockConstants, BlockSize;
    var sum := Binary(Plus, Var("s"), Var("n"));
    OperationCode(Plus, Var("s"), Var("n"), k + 1);
    AssignmentCode("s", sum, k);
    LineCode(Assign("s", sum), b, at, k, start, exit);
  }

  lemma CountDownCode(b: Block, at: nat, k: nat, start: nat, exit: Target)
    requires k < 200
    ensures BlockCode(BCons(CountDown(), b), at, k, start, exit)
         == [28, k + 1, 0, 0, k + 2, 0, 5, 29, k, 0, 24] + BlockCode(b, at + 11, k + 3, start, exit)
    ensures BlockConstants(BCons(CountDown(), b)) == [Str("n"), Str("n"), Int(1)] + BlockConstants(b)
    ensures BlockSize(BCons(CountDown(), b)) == 11 + BlockSize(b)
  {
    hide ExprCode, ExprConstants, ExprSize, BlockCode, BlockConstants, BlockSize;
    var e := Binary(Minus, Var("n"), Lit(IntLit(1)));
    OperationCode(Minus, Var("n"), Lit(IntLit(1)), k + 1);
    AssignmentCode("n", e, k);
    LineCode(Assign("n", e), b, at, k, start, exit);
  }

  lemma OneStatementCode(s: Stmt)
    ensures BlockCode(BCons(s, BNil), 0, 0, 0, Unknown) == StmtCode(s, 0, 0, 0, Unknown)
    ensures BlockConstants(BCons(s, BNil)) == StmtConstants(s)
  {
    hide StmtCode, StmtConstants;
    assert BlockConstants(BCons(s, BNil)) == StmtConstants(s) + [];
  }

  /** The instructions with operands below 256. */
  lemma JumpCode(n: Byte)
    ensures Encode(JumpIfFalse(n)) == [35, n, 0] && Encode(Jump(n)) == [34, n, 0] && Encode(LoopBack(n)) == [36, n, 0]
    ensures Encode(Pop) == [24] && Encode(OpNot) == [10]
  {
  }

  lemma WhileCode()
    ensures BlockCode(BCons(SumLoop(), BNil), 0, 0, 0, Unknown) ==
              [28, 0, 0, 0, 1, 0, 21, 35, 26, 0, 24] +
              [28, 3, 0, 28, 4, 0, 4, 29, 2, 0, 24] +
              [28, 6, 0, 0, 7, 0, 5, 29, 5, 0, 24] +
              [36, 36, 0, 24]
    ensures BlockConstants(BCons(SumLoop(), BNil))
         == [Str("n"), Int(0), Str("s"), Str("s"), Str("n"), Str("n"), Str("n"), Int(1)]
  {
    hide ExprCode, ExprConstants, ExprSize, BlockCode, BlockConstants, BlockSize, StmtCode, StmtConstants, StmtSize, Encode,
      AddN, CountDown;
    OperationCode(Greater, Var("n"), Lit(IntLit(0)), 0);
    SumBodyCode();
    CodeOfWhile(SumLoop(), 0, 0, 0, Unknown);
    OneStatementCode(SumLoop());
    JumpCode(26);
    JumpCode(36);
  }

  lemma SumBodyCode()
    ensures var body := BCons(AddN(), BCons(CountDown(), BNil));
            && BlockCode(body, 11, 2, 0, Address(37)) ==
               [28, 3, 0, 28, 4, 0, 4, 29, 2, 0, 24] + [28, 6, 0, 0, 7, 0, 5, 29, 5, 0, 24]
            && BlockConstants(body) == [Str("s"), Str("s"), Str("n"), Str("n"), Str("n"), Int(1)] && BlockSize(body) == 22
  {
    hide BlockCode, BlockConstants, BlockSize, AddN, CountDown;
    AddNCode(BCons(CountDown(), BNil), 11, 2, 0, Address(37));
    CountDownCode(BNil, 22, 5, 0, Address(37));
    NoCode(33, 8, 0, Address(37));
  }

  /** The bytes of `until n == 0; n = n - 1; end`. */
  lemma UntilCompiles()
    ensures CompilesTo(UNTIL_TOKENS,
              [28, 0, 0, 0, 1, 0, 17, 10, 35, 15, 0, 24] + [28, 3, 0, 0, 4, 0, 5, 29, 2, 0, 24] + [36, 26, 0, 24] + [1, 38],
              [Str("n"), Int(0), Str("n"), Str("n"), Int(1)])
  {
    hide *;
    UntilIsPrinted();
    UntilFits();
    UntilCode();
    Compiles(UNTIL_TOKENS, BCons(UntilLoop(), BNil),
              [28, 0, 0, 0, 1, 0, 17, 10, 35, 15, 0, 24] + [28, 3, 0, 0, 4, 0, 5, 29, 2, 0, 24] + [36, 26, 0, 24],
              [Str("n"), Int(0), Str("n"), Str("n"), Int(1)]);
  }

  lemma UntilCode()
    ensures BlockCode(BCons(UntilLoop(), BNil), 0, 0, 0, Unknown) ==
              [28, 0, 0, 0, 1, 0, 17, 10, 35, 15, 0, 24] + [28, 3, 0, 0, 4, 0, 5, 29, 2, 0, 24] + [36, 26, 0, 24]
    ensures BlockConstants(BCons(UntilLoop(), BNil)) == [Str("n"), Int(0), Str("n"), Str("n"), Int(1)]
  {
    hide ExprCode, ExprConstants, ExprSize, BlockCode, BlockConstants, BlockSize, StmtCode, StmtConstants, StmtSize, Encode,
      CountDown;
    OperationCode(EqualEqual, Var("n"), Lit(IntLit(0)), 0);
    CountDownCode(BNil, 12, 2, 0, Address(27));
    NoCode(23, 5, 0, Address(27));
    CodeOfUntil(UntilLoop(), 0, 0, 0, Unknown);
    OneStatementCode(UntilLoop());
    JumpCode(15);
    JumpCode(26);
  }

  /** The bytes of `loop; if n == 0; break; end; n = n - 1; next; s = s + n; end`. */
  lemma LoopCompiles()
    ensures CompilesTo(LOOP_TOKENS,
              [28, 0, 0, 0, 1, 0, 17, 35, 7, 0, 24, 34, 32, 0, 34, 1, 0, 24] +
              [28, 3, 0, 0, 4, 0, 5, 29, 2, 0, 24] + [36, 32, 0] +
              [28, 6, 0, 28, 7, 0, 4, 29, 5, 0, 24] + [36, 46, 0] + [1, 38],
              [Str("n"), Int(0), Str("n"), Str("n"), Int(1), Str("s"), Str("s"), Str("n")])
  {
    hide *;
    LoopIsPrinted();
    LoopFits();
    LoopCode();
    Compiles(LOOP_TOKENS, BCons(EndlessLoop(), BNil),
              [28, 0, 0, 0, 1, 0, 17, 35, 7, 0, 24, 34, 32, 0, 34, 1, 0, 24] +
              [28, 3, 0, 0, 4, 0, 5, 29, 2, 0, 24] + [36, 32, 0] +
              [28, 6, 0, 28, 7, 0, 4, 29, 5, 0, 24] + [36, 46, 0],
              [Str("n"), Int(0), Str("n"), Str("n"), Int(1), Str("s"), Str("s"), Str("n")]);
  }

  lemma StatementCode(s: Stmt, b: Block, at: nat, k: nat, start: nat, exit: Target)
    ensures BlockCode(BCons(s, b), at, k, start, exit)
         == StmtCode(s, at, k, start, exit) + BlockCode(b, at + StmtSize(s), k + |StmtConstants(s)|, start, exit)
    ensures BlockConstants(BCons(s, b)) == StmtConstants(s) + BlockConstants(b)
    ensures BlockSize(BCons(s, b)) == StmtSize(s) + BlockSize(b)
  {
    hide StmtCode, StmtConstants, StmtSize;
  }

  lemma BreakCode(k: nat)
    ensures BlockCode(BCons(Break, BNil), 11, k, 0, Address(46)) == [34, 32, 0]
    ensures BlockConstants(BCons(Break, BNil)) == [] && BlockSize(BCons(Break, BNil)) == 3
  {
    hide Encode;
    JumpCode(32);
    StatementCode(Break, BNil, 11, k, 0, Address(46));
    NoCode(14, k, 0, Address(46));
    assert BreakOffset(11, Address(46)) == 32;
  }

  lemma NextCode(k: nat)
    ensures StmtCode(Next, 29, k, 0, Address(46)) == [36, 32, 0] && StmtConstants(Next) == [] && StmtSize(Next) == 3
  {
    hide Encode;
    JumpCode(32);
    assert NextOffset(29, 0) == 32;
  }

  lemma ExitCode()
    ensures StmtCode(LeaveAtZero(), 0, 0, 0, Address(46)) == [28, 0, 0, 0, 1, 0, 17, 35, 7, 0, 24, 34, 32, 0, 34, 1, 0, 24]
    ensures StmtConstants(LeaveAtZero()) == [Str("n"), Int(0)] && StmtSize(LeaveAtZero()) == 18
  {
    hide ExprCode, ExprConstants, ExprSize, BlockCode, BlockConstants, BlockSize, Encode, ArmsCode, ArmsConstants, ArmsSize;
    var arms := LeaveAtZero().arms;
    OperationCode(EqualEqual, Var("n"), Lit(IntLit(0)), 0);
    BreakCode(2);
    NoCode(18, 2, 0, Address(46));
    ElseCode(BNil, 18, 2, Address(46));
    CodeOfArm(arms, 0, 0, 0, Address(46));
    JumpCode(7);
    JumpCode(1);
    IfIsItsArms(arms, Address(46));
  }

  lemma LoopCode()
    ensures BlockCode(BCons(EndlessLoop(), BNil), 0, 0, 0, Unknown) ==
              [28, 0, 0, 0, 1, 0, 17, 35, 7, 0, 24, 34, 32, 0, 34, 1, 0, 24] +
              [28, 3, 0, 0, 4, 0, 5, 29, 2, 0, 24] + [36, 32, 0] +
              [28, 6, 0, 28, 7, 0, 4, 29, 5, 0, 24] + [36, 46, 0]
    ensures BlockConstants(BCons(EndlessLoop(), BNil))
         == [Str("n"), Int(0), Str("n"), Str("n"), Int(1), Str("s"), Str("s"), Str("n")]
  {
    hide ExprCode, ExprConstants, ExprSize, BlockCode, BlockConstants, BlockSize, Encode, LeaveAtZero, CountDown, AddN,
      StmtCode, StmtConstants, StmtSize;
    ExitCode();
    var last := BCons(AddN(), BNil);
    StatementCode(LeaveAtZero(), BCons(CountDown(), BCons(Next, last)), 0, 0, 0, Address(46));
    CountDownCode(BCons(Next, last), 18, 2, 0, Address(46));
    StatementCode(Next, last, 29, 5, 0, Address(46));
    NextCode(5);
    AddNCode(BNil, 32, 5, 0, Address(46));
    NoCode(43, 8, 0, Address(46));
    LoopCodeParts();
    OneStatementCode(EndlessLoop());
    JumpCode(46);
  }

  lemma LoopCodeParts()
    ensures BlockSize(LoopBody()) == 43 ==>
              StmtCode(EndlessLoop(), 0, 0, 0, Unknown) == BlockCode(LoopBody(), 0, 0, 0, Address(46)) + Encode(LoopBack(46))
    ensures StmtConstants(EndlessLoop()) == BlockConstants(LoopBody())
  {
    hide BlockCode, BlockConstants, BlockSize, Encode, LoopBody;
  }

  /** The bytes of `if a; x = 1; elsif b; x = 2; else x = 3; end`. */
  lemma IfCompiles()
    ensures CompilesTo(IF_TOKENS,
              [28, 0, 0, 35, 11, 0, 24] + [0, 2, 0, 29, 1, 0, 24] + [34, 26, 0, 24] +
              [28, 3, 0, 35, 11, 0, 24] + [0, 5, 0, 29, 4, 0, 24] + [34, 8, 0, 24] +
              [0, 7, 0, 29, 6, 0, 24] + [1, 38],
              [Str("a"), Str("x"), Int(1), Str("b"), Str("x"), Int(2), Str("x"), Int(3)])
  {
    hide *;
    IfIsPrinted();
    IfFits();
    IfCode();
    Compiles(IF_TOKENS, BCons(If(Choices()), BNil),
              [28, 0, 0, 35, 11, 0, 24] + [0, 2, 0, 29, 1, 0, 24] + [34, 26, 0, 24] +
              [28, 3, 0, 35, 11, 0, 24] + [0, 5, 0, 29, 4, 0, 24] + [34, 8, 0, 24] +
              [0, 7, 0, 29, 6, 0, 24],
              [Str("a"), Str("x"), Int(1), Str("b"), Str("x"), Int(2), Str("x"), Int(3)]);
  }

  lemma SetXCode(n: nat, at: nat, k: nat)
    requires n < 1000 && k < 200
    ensures BlockCode(SetX(n), at, k, 0, Unknown) == [0, k + 1, 0, 29, k, 0, 24]
    ensures BlockConstants(SetX(n)) == [Str("x"), Int(n)] && BlockSize(SetX(n)) == 7
  {
    hide ExprCode, ExprConstants, ExprSize, BlockCode, BlockConstants, BlockSize;
    LeafCode(Lit(IntLit(n)), k + 1);
    AssignmentCode("x", Lit(IntLit(n)), k);
    LineCode(Assign("x", Lit(IntLit(n))), BNil, at, k, 0, Unknown);
    NoCode(at + 7, k + 2, 0, Unknown);
  }

  lemma ElseCode(b: Block, at: nat, k: nat, exit: Target)
    ensures ArmsCode(Else(b), at, k, 0, exit) == BlockCode(b, at, k, 0, exit)
    ensures ArmsConstants(Else(b)) == BlockConstants(b) && ArmsSize(Else(b)) == BlockSize(b)
  {
    hide BlockCode, BlockConstants, BlockSize;
  }

  lemma IfIsItsArms(arms: Arms, exit: Target)
    ensures StmtCode(If(arms), 0, 0, 0, exit) == ArmsCode(arms, 0, 0, 0, exit)
    ensures StmtConstants(If(arms)) == ArmsConstants(arms) && StmtSize(If(arms)) == ArmsSize(arms)
  {
    hide ArmsCode, ArmsConstants, ArmsSize;
  }

  lemma SecondArmCode()
    ensures var arms := Arm(Var("b"), SetX(2), Else(SetX(3)));
            && ArmsCode(arms, 18, 3, 0, Unknown)
               == [28, 3, 0, 35, 11, 0, 24] + [0, 5, 0, 29, 4, 0, 24] + [34, 8, 0, 24] + [0, 7, 0, 29, 6, 0, 24]
            && ArmsConstants(arms) == [Str("b"), Str("x"), Int(2), Str("x"), Int(3)] && ArmsSize(arms) == 25
  {
    hide ExprCode, ExprConstants, ExprSize, BlockCode, BlockConstants, BlockSize, Encode, SetX, ArmsCode, ArmsConstants, ArmsSize;
    LeafCode(Var("b"), 3);
    SetXCode(2, 25, 4);
    SetXCode(3, 36, 6);
    ElseCode(SetX(3), 36, 6, Unknown);
    CodeOfArm(Arm(Var("b"), SetX(2), Else(SetX(3))), 18, 3, 0, Unknown);
    JumpCode(11);
    JumpCode(8);
  }

  lemma IfCode()
    ensures BlockCode(BCons(If(Choices()), BNil), 0, 0, 0, Unknown) ==
              [28, 0, 0, 35, 11, 0, 24] + [0, 2, 0, 29, 1, 0, 24] + [34, 26, 0, 24] +
              [28, 3, 0, 35, 11, 0, 24] + [0, 5, 0, 29, 4, 0, 24] + [34, 8, 0, 24] +
              [0, 7, 0, 29, 6, 0, 24]
    ensures BlockConstants(BCons(If(Choices()), BNil))
         == [Str("a"), Str("x"), Int(1), Str("b"), Str("x"), Int(2), Str("x"), Int(3)]
  {
    hide ExprCode, ExprConstants, ExprSize, BlockCode, BlockConstants, BlockSize, Encode, SetX, ArmsCode, ArmsConstants, ArmsSize,
      StmtCode, StmtConstants;
    LeafCode(Var("a"), 0);
    SetXCode(1, 7, 1);
    SecondArmCode();
    CodeOfArm(Choices(), 0, 0, 0, Unknown);
    IfIsItsArms(Choices(), Unknown);
    OneStatementCode(If(Choices()));
    JumpCode(11);
    JumpCode(26);
  }

  /** The bytes of `x = a and b; y = a or b`. */
  lemma LogicCompiles()
    ensures CompilesTo(LOGIC_TOKENS,
              [28, 1, 0, 35, 4, 0, 24, 28, 2, 0, 29, 0, 0, 24] +
              [28, 4, 0, 35, 3, 0, 34, 4, 0, 24, 28, 5, 0, 29, 3, 0, 24] + [1, 38],
              [Str("x"), Str("a"), Str("b"), Str("y"), Str("a"), Str("b")])
  {
    hide *;
    LogicIsPrinted();
    LogicFits();
    LogicCode();
    Compiles(LOGIC_TOKENS, Logic(),
              [28, 1, 0, 35, 4, 0, 24, 28, 2, 0, 29, 0, 0, 24] +
              [28, 4, 0, 35, 3, 0, 34, 4, 0, 24, 28, 5, 0, 29, 3, 0, 24],
              [Str("x"), Str("a"), Str("b"), Str("y"), Str("a"), Str("b")]);
  }

  lemma LogicCode()
    ensures BlockCode(Logic(), 0, 0, 0, Unknown) ==
              [28, 1, 0, 35, 4, 0, 24, 28, 2, 0, 29, 0, 0, 24] +
              [28, 4, 0, 35, 3, 0, 34, 4, 0, 24, 28, 5, 0, 29, 3, 0, 24]
    ensures BlockConstants(Logic()) == [Str("x"), Str("a"), Str("b"), Str("y"), Str("a"), Str("b")]
  {
    hide ExprCode, ExprConstants, ExprSize, BlockCode, BlockConstants, BlockSize;
    var both, either := And(Var("a"), Var("b")), Or(Var("a"), Var("b"));
    BothCode();
    EitherCode();
    AssignmentCode("x", both, 0);
    AssignmentCode("y", either, 3);
    LineCode(Assign("x", both), BCons(SetYToOr(), BNil), 0, 0, 0, Unknown);
    LineCode(Assign("y", either), BNil, 14, 3, 0, Unknown);
    NoCode(31, 6, 0, Unknown);
  }

  lemma BothCode()
    ensures var e := And(Var("a"), Var("b"));
            && ExprCode(e, 1) == [28, 1, 0, 35, 4, 0, 24, 28, 2, 0] && ExprConstants(e) == [Str("a"), Str("b")] && ExprSize(e) == 10
  {
    hide ExprCode, ExprConstants, Encode;
    LeafCode(Var("a"), 1);
    LeafCode(Var("b"), 2);
    CodeOfAnd(And(Var("a"), Var("b")), 1);
    JumpCode(4);
  }

  lemma EitherCode()
    ensures var e := Or(Var("a"), Var("b"));
            && ExprCode(e, 4) == [28, 4, 0, 35, 3, 0, 34, 4, 0, 24, 28, 5, 0]
            && ExprConstants(e) == [Str("a"), Str("b")] && ExprSize(e) == 13
  {
    hide ExprCode, ExprConstants, Encode;
    LeafCode(Var("a"), 4);
    LeafCode(Var("b"), 5);
    CodeOfOr(Or(Var("a"), Var("b")), 4);
    JumpCode(3);
    JumpCode(4);
  }

  /** The bytes of `x = f(a, b)`. */
  lemma CallCompiles()
    ensures CompilesTo(CALL_TOKENS, [28, 1, 0, 28, 2, 0, 28, 3, 0, 37, 2, 29, 0, 0, 24] + [1, 38],
              [Str("x"), Str("f"), Str("a"), Str("b")])
  {
    hide *;
    CallIsPrinted();
    CallFits();
    CallCode();
    Compiles(CALL_TOKENS, Calling(), [28, 1, 0, 28, 2, 0, 28, 3, 0, 37, 2, 29, 0, 0, 24],
             [Str("x"), Str("f"), Str("a"), Str("b")]);
  }

  lemma CallCode()
    ensures BlockCode(Calling(), 0, 0, 0, Unknown) == [28, 1, 0, 28, 2, 0, 28, 3, 0, 37, 2, 29, 0, 0, 24]
    ensures BlockConstants(Calling()) == [Str("x"), Str("f"), Str("a"), Str("b")]
  {
    hide ExprCode, ExprConstants, ExprSize, BlockCode, BlockConstants, BlockSize;
    CallFCode();
    AssignmentCode("x", CallF(), 0);
    LineCode(Assign("x", CallF()), BNil, 0, 0, 0, Unknown);
    NoCode(15, 4, 0, Unknown);
  }

  lemma CallFCode()
    ensures ExprCode(CallF(), 1) == [28, 1, 0, 28, 2, 0, 28, 3, 0, 37, 2]
    ensures ExprConstants(CallF()) == [Str("f"), Str("a"), Str("b")] && ExprSize(CallF()) == 11
  {
    hide ExprCode, ExprConstants;
    var last := ECons(Var("b"), ENil);
    LeafCode(Var("f"), 1);
    LeafCode(Var("a"), 2);
    LeafCode(Var("b"), 3);
    CodeOfCall(CallF(), 1);
    assert ArgsCode(last, 3) == [28, 3, 0] && ArgsConstants(last) == [Str("b")] && ArgsSize(last) == 3;
    assert ArgsCode(CallF().args, 2) == [28, 2, 0, 28, 3, 0] && ArgsConstants(CallF().args) == [Str("a"), Str("b")];
    assert CallF().args.Length() == 2;
  }

  // ---- Signs and literals ----

  lemma AssignedCompiles(e: Expr, text: seq<Token>, code: seq<Byte>, constants: seq<Value>)
    requires Printing.PrintExpr(e, PREC_ASSIGNMENT) == text && Printing.CallsFit(e) && ExprSize(e) <= 500
    requires ExprCode(e, 1) == code && ExprConstants(e) == constants
    ensures CompilesTo([TIdent("x"), TEqual] + text + [TNewline], code + [29, 0, 0, 24, 1, 38], [Str("x")] + constants)
  {
    hide *;
    var line := Assign("x", e);
    var b := BCons(ExprStmt(line), BNil);
    AssignedPrinted(e);
    AssignedIsSmall(e);
    OneLineFits(line);
    AssignmentCode("x", e, 0);
    LineCode(line, BNil, 0, 0, 0, Unknown);
    NoCode(0 + ExprSize(line) + 1, 0 + |ExprConstants(line)|, 0, Unknown);
    assert BlockCode(b, 0, 0, 0, Unknown) == code + [29, 0, 0] + [24] + [] == code + [29, 0, 0, 24];
    assert BlockConstants(b) == [Str("x")] + constants + [] == [Str("x")] + constants;
    Compiles([TIdent("x"), TEqual] + text + [TNewline], b, code + [29, 0, 0, 24], [Str("x")] + constants);
    assert code + [29, 0, 0, 24] + [1, 38] == code + [29, 0, 0, 24, 1, 38];
  }

  lemma AssignedPrinted(e: Expr)
    ensures Printing.PrintBlock(BCons(ExprStmt(Assign("x", e)), BNil))
         == [TIdent("x"), TEqual] + Printing.PrintExpr(e, PREC_ASSIGNMENT) + [TNewline]
  {
    hide Printing.PrintExpr, Printing.PrintBlock;
    PrintedSet(Assign("x", e));
    PrintedBlock(ExprStmt(Assign("x", e)), BNil);
  }

  lemma AssignedIsSmall(e: Expr)
    requires Printing.CallsFit(e) && ExprSize(e) <= 500
    ensures Printing.CallsFit(Assign("x", e)) && ExprSize(Assign("x", e)) <= 600
  {
  }

  /** The opcodes of `-a`, `!a` and `~a`. */
  lemma SignsCompile()
    ensures CompilesTo([TIdent("x"), TEqual] + [TBin(Minus), TIdent("a")] + [TNewline],
              [28, 1, 0, 9] + [29, 0, 0, 24, 1, 38], [Str("x")] + [Str("a")])
    ensures CompilesTo([TIdent("x"), TEqual] + [TBang, TIdent("a")] + [TNewline],
              [28, 1, 0, 10] + [29, 0, 0, 24, 1, 38], [Str("x")] + [Str("a")])
    ensures CompilesTo([TIdent("x"), TEqual] + [TTilde, TIdent("a")] + [TNewline],
              [28, 1, 0, 14] + [29, 0, 0, 24, 1, 38], [Str("x")] + [Str("a")])
  {
    hide *;
    SignCode(Neg);
    SignCode(Not);
    SignCode(BitNot);
    AssignedCompiles(Unary(Neg, Var("a")), [TBin(Minus), TIdent("a")], [28, 1, 0, 9], [Str("a")]);
    AssignedCompiles(Unary(Not, Var("a")), [TBang, TIdent("a")], [28, 1, 0, 10], [Str("a")]);
    AssignedCompiles(Unary(BitNot, Var("a")), [TTilde, TIdent("a")], [28, 1, 0, 14], [Str("a")]);
  }

  lemma SignCode(op: UnOp)
    ensures var e := Unary(op, Var("a"));
            && Printing.PrintExpr(e, PREC_ASSIGNMENT)
               == [if op.Neg? then TBin(Minus) else if op.Not? then TBang else TTilde, TIdent("a")]
            && Printing.CallsFit(e) && ExprSize(e) <= 500
            && ExprCode(e, 1) == [28, 1, 0, if op.Neg? then 9 else if op.Not? then 10 else 14]
            && ExprConstants(e) == [Str("a")]
  {
    hide ExprCode, ExprConstants;
    var e := Unary(op, Var("a"));
    LeafPrinted(Var("a"), PREC_UNARY);
    assert Printing.PrintExpr(e, PREC_ASSIGNMENT) == Printing.PrintBare(e);
    LeafCode(Var("a"), 1);
    CodeOfUnary(e, 1);
  }

  /** nil, true and false have instructions of their own; every other literal is a constant, a string as its bytes and
      a symbol as its name. */
  lemma LiteralsCompile(lit: Literal, n: nat, d: Values.Double, text: string)
    requires n < 0x8000_0000_0000
    ensures CompilesTo([TIdent("x"), TEqual] + [TLit(NilLit)] + [TNewline], [1] + [29, 0, 0, 24, 1, 38], [Str("x")] + [])
    ensures CompilesTo([TIdent("x"), TEqual] + [TLit(TrueLit)] + [TNewline], [2] + [29, 0, 0, 24, 1, 38], [Str("x")] + [])
    ensures CompilesTo([TIdent("x"), TEqual] + [TLit(FalseLit)] + [TNewline], [3] + [29, 0, 0, 24, 1, 38], [Str("x")] + [])
    ensures lit in {IntLit(n), FloatLit(d), StrLit(text), SymbolLit(text)} ==>
              CompilesTo([TIdent("x"), TEqual] + [TLit(lit)] + [TNewline], [0, 1, 0] + [29, 0, 0, 24, 1, 38],
                [Str("x")] + [if lit == IntLit(n) then Int(n) else if lit == FloatLit(d) then Float(d) else Str(text)])
  {
    hide *;
    LiteralCode(NilLit, 0, d, text);
    LiteralCode(TrueLit, 0, d, text);
    LiteralCode(FalseLit, 0, d, text);
    LiteralCode(lit, n, d, text);
    AssignedCompiles(Lit(NilLit), [TLit(NilLit)], [1], []);
    AssignedCompiles(Lit(TrueLit), [TLit(TrueLit)], [2], []);
    AssignedCompiles(Lit(FalseLit), [TLit(FalseLit)], [3], []);
    if lit in {IntLit(n), FloatLit(d), StrLit(text), SymbolLit(text)} {
      AssignedCompiles(Lit(lit), [TLit(lit)], [0, 1, 0],
        [if lit == IntLit(n) then Int(n) else if lit == FloatLit(d) then Float(d) else Str(text)]);
    }
  }

  lemma LiteralCode(lit: Literal, n: nat, d: Values.Double, text: string)
    requires n < 0x8000_0000_0000
    ensures Printing.PrintExpr(Lit(lit), PREC_ASSIGNMENT) == [TLit(lit)]
    ensures Printing.CallsFit(Lit(lit)) && ExprSize(Lit(lit)) <= 500
    ensures lit == NilLit ==> ExprCode(Lit(lit), 1) == [1] && ExprConstants(Lit(lit)) == []
    ensures lit == TrueLit ==> ExprCode(Lit(lit), 1) == [2] && ExprConstants(Lit(lit)) == []
    ensures lit == FalseLit ==> ExprCode(Lit(lit), 1) == [3] && ExprConstants(Lit(lit)) == []
    ensures lit in {IntLit(n), FloatLit(d), StrLit(text), SymbolLit(text)} ==>
              && ExprCode(Lit(lit), 1) == [0, 1, 0]
              && ExprConstants(Lit(lit))
                 == [if lit == IntLit(n) then Int(n) else if lit == FloatLit(d) then Float(d) else Str(text)]
  {
  }
}
