/** The limits of the bytecode format, met exactly: how long a script, a branch, a loop and a list of arguments can be
    before the compiler gives up (MAX_CONSTANTS, the 16-bit jumps and the 256 breaks of src/compiler.c). */
module Limits {
  import opened Syntax
  import opened Runtime
  import opened Codegen
  import Compiling
  import Parsing
  import Printing

  function Repeated(ts: seq<Token>, n: nat): seq<Token> {
    if n == 0 then [] else ts + Repeated(ts, n - 1)
  }

  function Copies(s: Stmt, n: nat): Block {
    if n == 0 then BNil else BCons(s, Copies(s, n - 1))
  }

  lemma {:induction false} CopiesPrint(s: Stmt, n: nat)
    ensures Printing.PrintBlock(Copies(s, n)) == Repeated(Printing.PrintStmt(s) + [TNewline], n)
  {
    hide Printing.PrintStmt;
    if n > 0 { CopiesPrint(s, n - 1); }
  }

  lemma {:induction false} CopiesAreWellFormed(s: Stmt, n: nat, inLoop: bool)
    requires Printing.WellFormedStmt(s, inLoop)
    ensures Printing.WellFormed(Copies(s, n), inLoop)
  {
    hide Printing.WellFormedStmt;
    if n > 0 { CopiesAreWellFormed(s, n - 1, inLoop); }
  }

  lemma {:induction false} SizeOfCopies(s: Stmt, n: nat)
    ensures BlockSize(Copies(s, n)) == n * StmtSize(s) && |BlockConstants(Copies(s, n))| == n * |StmtConstants(s)|
  {
    hide StmtSize, StmtConstants;
    if n > 0 {
      SizeOfCopies(s, n - 1);
      assert n * StmtSize(s) == StmtSize(s) + (n - 1) * StmtSize(s);
      assert n * |StmtConstants(s)| == |StmtConstants(s)| + (n - 1) * |StmtConstants(s)|;
    }
  }

  /** Lines without jumps fit anywhere, and have no breaks. */
  lemma {:induction false} LinesFit(e: Expr, n: nat, at: nat, start: nat, exit: Target)
    requires ExprFits(e)
    ensures BlockFits(Copies(ExprStmt(e), n), at, start, exit) && BlockBreaks(Copies(ExprStmt(e), n), at) == []
  {
    hide ExprFits;
    if n > 0 { LinesFit(e, n - 1, at + StmtSize(ExprStmt(e)), start, exit); }
  }

  lemma CompilesIff(b: Block, tokens: seq<Token>)
    requires Printing.PrintBlock(b) == tokens && Printing.WellFormed(b, false)
    ensures Compiling.CompileSpec(tokens).Function? <==> ScriptFits(b)
  {
    hide Printing.PrintBlock, Printing.WellFormed, ScriptFits, Parsing.ParseScript, ScriptChunk;
    Printing.ScriptRoundTrip(b);
  }

  lemma LinePrint(lit: Literal)
    ensures Printing.PrintStmt(ExprStmt(Lit(lit))) + [TNewline] == [TLit(lit), TNewline]
    ensures Printing.WellFormedStmt(ExprStmt(Lit(lit)), false) && Printing.WellFormedStmt(ExprStmt(Lit(lit)), true)
    ensures ExprFits(Lit(lit))
  {
    assert Printing.PrintExpr(Lit(lit), PREC_ASSIGNMENT) == [TLit(lit)];
    assert Printing.CallsFit(Lit(lit));
  }

  lemma LineSizes()
    ensures StmtSize(ExprStmt(Lit(NilLit))) == 2 && |StmtConstants(ExprStmt(Lit(NilLit)))| == 0
    ensures |StmtConstants(ExprStmt(Lit(IntLit(1))))| == 1
    ensures StmtSize(Break) == 3 && |StmtConstants(Break)| == 0
  {
  }

  /** A script has room for 65536 constants. */
  lemma ConstantLimitIff(n: nat)
    ensures Compiling.CompileSpec(Repeated([TLit(IntLit(1)), TNewline], n)).Function? <==> n <= 65536
  {
    hide ScriptFits, Compiling.CompileSpec, Printing.PrintBlock, Printing.PrintStmt, Printing.WellFormed, Printing.WellFormedStmt;
    var s := ExprStmt(Lit(IntLit(1)));
    LinePrint(IntLit(1));
    CopiesPrint(s, n);
    CopiesAreWellFormed(s, n, false);
    CompilesIff(Copies(s, n), Repeated([TLit(IntLit(1)), TNewline], n));
    LinesFitIff(n);
  }

  lemma LinesFitIff(n: nat)
    ensures ScriptFits(Copies(ExprStmt(Lit(IntLit(1))), n)) <==> n <= 65536
  {
    hide Copies, ExprFits;
    LinePrint(IntLit(1));
    LinesFit(Lit(IntLit(1)), n, 0, 0, Unknown);
    ConstantsOfLines(n);
  }

  lemma ConstantsOfLines(n: nat)
    ensures |BlockConstants(Copies(ExprStmt(Lit(IntLit(1))), n))| == n
  {
    hide *;
    SizeOfCopies(ExprStmt(Lit(IntLit(1))), n);
    LineSizes();
    assert n * 1 == n;
  }

  // ---- Jumps ----

  lemma ArmFits(n: nat)
    ensures ScriptFits(BCons(If(Arm(Var("a"), Copies(ExprStmt(Lit(NilLit)), n), Else(BNil))), BNil)) <==> n <= 32765
  {
    hide Copies, BlockSize, StmtConstants, BlockConstants, StmtSize, ExprConstants, BlockFits;
    var s := ExprStmt(Lit(NilLit));
    var b := Copies(s, n);
    var arms := Arm(Var("a"), b, Else(BNil));
    LinePrint(NilLit);
    LinesFit(Lit(NilLit), n, 7, 0, Unknown);
    SizeOfCopies(s, n);
    LineSizes();
    EmptyFits(15 + BlockSize(b), 0);
    ConstantsOfArm(b);
    assert ArmsSize(Else(BNil)) == BlockSize(BNil) == 0;
    assert ArmsFits(Else(BNil), 11 + BlockSize(b), 0, Unknown) by { EmptyFits(11 + BlockSize(b), 0); }
    assert ExprSize(Var("a")) == 3;
    assert ArmsFits(arms, 0, 0, Unknown) <==> BlockSize(b) + 4 <= 65535;
    OneFits(If(arms));
  }

  lemma EmptyFits(at: nat, start: nat)
    ensures BlockFits(BNil, at, start, Unknown) && BlockSize(BNil) == 0 && BlockConstants(BNil) == []
  {
  }

  lemma ConstantsOfArm(b: Block)
    ensures |StmtConstants(If(Arm(Var("a"), b, Else(BNil))))| == 1 + |BlockConstants(b)|
  {
    hide BlockConstants;
    EmptyFits(0, 0);
    var arms := Arm(Var("a"), b, Else(BNil));
    assert ArmsConstants(Else(BNil)) == BlockConstants(BNil) == [];
    assert ArmsConstants(arms) == [Str("a")] + BlockConstants(b) + [];
  }

  lemma OneFits(s: Stmt)
    ensures ScriptFits(BCons(s, BNil)) <==> StmtFits(s, 0, 0, Unknown) && |StmtConstants(s)| <= 65536
  {
    hide StmtFits, StmtConstants, StmtSize;
    EmptyFits(StmtSize(s), 0);
    assert BlockConstants(BCons(s, BNil)) == StmtConstants(s) + [];
  }

  lemma ArmPrints(n: nat)
    ensures Printing.PrintBlock(BCons(If(Arm(Var("a"), Copies(ExprStmt(Lit(NilLit)), n), Else(BNil))), BNil))
         == [TIf, TIdent("a"), TNewline] + Repeated([TLit(NilLit), TNewline], n) + [TEnd, TNewline]
    ensures Printing.WellFormed(BCons(If(Arm(Var("a"), Copies(ExprStmt(Lit(NilLit)), n), Else(BNil))), BNil), false)
  {
    hide Copies, Repeated, Printing.PrintExpr;
    LinePrint(NilLit);
    CopiesPrint(ExprStmt(Lit(NilLit)), n);
    CopiesAreWellFormed(ExprStmt(Lit(NilLit)), n, false);
    ArmShape(Copies(ExprStmt(Lit(NilLit)), n));
  }

  lemma ArmShape(b: Block)
    requires Printing.WellFormed(b, false)
    ensures Printing.PrintBlock(BCons(If(Arm(Var("a"), b, Else(BNil))), BNil))
         == [TIf, TIdent("a"), TNewline] + Printing.PrintBlock(b) + [TEnd, TNewline]
    ensures Printing.WellFormed(BCons(If(Arm(Var("a"), b, Else(BNil))), BNil), false)
  {
    hide Printing.PrintBlock, Printing.PrintExpr, Printing.PrintStmt, Printing.WellFormed, Printing.WellFormedStmt;
    var arms := Arm(Var("a"), b, Else(BNil));
    OnePrints(If(arms));
    NamePrints();
    IfShape(b);
    NothingPrints();
  }

  lemma NamePrints()
    ensures Printing.PrintExpr(Var("a"), PREC_ASSIGNMENT) == [TIdent("a")]
  {
  }

  lemma NothingPrints()
    ensures Printing.PrintBlock(BNil) == [] && Printing.WellFormed(BNil, false)
  {
  }

  lemma IfShape(b: Block)
    requires Printing.WellFormed(b, false)
    ensures Printing.PrintStmt(If(Arm(Var("a"), b, Else(BNil))))
         == [TIf] + Printing.PrintExpr(Var("a"), PREC_ASSIGNMENT) + [TNewline] + Printing.PrintBlock(b) + [TEnd]
    ensures Printing.WellFormedStmt(If(Arm(Var("a"), b, Else(BNil))), false)
  {
    hide Printing.PrintBlock, Printing.PrintExpr, Printing.WellFormed;
    NothingPrints();
    assert Printing.PrintArmTail(Else(BNil)) == [];
    assert Printing.WellFormedArms(Else(BNil), false);
  }

  lemma OnePrints(s: Stmt)
    ensures Printing.PrintBlock(BCons(s, BNil)) == Printing.PrintStmt(s) + [TNewline]
    ensures Printing.WellFormed(BCons(s, BNil), false) <==> Printing.WellFormedStmt(s, false)
  {
    hide Printing.PrintStmt, Printing.WellFormedStmt;
    NothingPrints();
  }

  /** The block of a condition has room for 65531 bytes: n lines `nil` have two bytes each. */
  lemma ArmLimitIff(n: nat)
    ensures Compiling.CompileSpec([TIf, TIdent("a"), TNewline] + Repeated([TLit(NilLit), TNewline], n) + [TEnd, TNewline]).Function?
            <==> n <= 32765
  {
    hide *;
    ArmPrints(n);
    ArmFits(n);
    CompilesIff(BCons(If(Arm(Var("a"), Copies(ExprStmt(Lit(NilLit)), n), Else(BNil))), BNil),
                [TIf, TIdent("a"), TNewline] + Repeated([TLit(NilLit), TNewline], n) + [TEnd, TNewline]);
  }

  lemma LoopShape(b: Block)
    requires Printing.WellFormed(b, true)
    ensures Printing.PrintBlock(BCons(Loop(b), BNil)) == [TLoop] + Printing.PrintBlock(b) + [TEnd, TNewline]
    ensures Printing.WellFormed(BCons(Loop(b), BNil), false)
  {
    hide Printing.PrintBlock, Printing.WellFormed;
    OnePrints(Loop(b));
  }

  lemma LoopFits(b: Block)
    ensures ScriptFits(BCons(Loop(b), BNil)) <==>
            && BlockSize(b) + 3 <= 65535 && BlockFits(b, 0, 0, Address(BlockSize(b) + 3)) && |BlockBreaks(b, 0)| <= 256
            && |BlockConstants(b)| <= 65536
  {
    hide BlockSize, BlockFits, BlockBreaks, BlockConstants;
    OneFits(Loop(b));
  }

  /** The body of a loop has room for 65532 bytes. */
  lemma LoopLimitIff(n: nat)
    ensures Compiling.CompileSpec([TLoop] + Repeated([TLit(NilLit), TNewline], n) + [TEnd, TNewline]).Function? <==> n <= 32766
  {
    hide *;
    var s := ExprStmt(Lit(NilLit));
    var b := Copies(s, n);
    LinePrint(NilLit);
    CopiesPrint(s, n);
    CopiesAreWellFormed(s, n, true);
    LoopShape(b);
    LineSizes();
    SizeOfCopies(s, n);
    assert n * 0 == 0;
    LinesFit(Lit(NilLit), n, 0, 0, Address(BlockSize(b) + 3));
    LoopFits(b);
    CompilesIff(BCons(Loop(b), BNil), [TLoop] + Repeated([TLit(NilLit), TNewline], n) + [TEnd, TNewline]);
  }

  lemma {:induction false} BreaksFit(n: nat, at: nat, exit: nat)
    requires at + 3 * n <= exit <= 65535
    ensures BlockFits(Copies(Break, n), at, 0, Address(exit)) && |BlockBreaks(Copies(Break, n), at)| == n
    decreases n
  {
    hide StmtFits, StmtBreaks;
    if n > 0 {
      BreaksFit(n - 1, at + 3, exit);
      BreakFits(at, exit);
    }
  }

  lemma BreakFits(at: nat, exit: nat)
    requires exit <= 65535
    ensures StmtFits(Break, at, 0, Address(exit)) && |StmtBreaks(Break, at)| == 1 && StmtSize(Break) == 3
  {
  }

  lemma BreakPrints()
    ensures Printing.PrintStmt(Break) + [TNewline] == [TBreak, TNewline] && Printing.WellFormedStmt(Break, true)
  {
  }

  /** A loop has room for 256 breaks. */
  lemma BreakLimitIff(n: nat)
    ensures Compiling.CompileSpec([TLoop] + Repeated([TBreak, TNewline], n) + [TEnd, TNewline]).Function? <==> n <= 256
  {
    hide *;
    var b := Copies(Break, n);
    BreakPrints();
    CopiesPrint(Break, n);
    CopiesAreWellFormed(Break, n, true);
    LoopShape(b);
    LineSizes();
    SizeOfCopies(Break, n);
    assert n * 0 == 0;
    if 3 * n + 3 <= 65535 { BreaksFit(n, 0, BlockSize(b) + 3); }
    LoopFits(b);
    CompilesIff(BCons(Loop(b), BNil), [TLoop] + Repeated([TBreak, TNewline], n) + [TEnd, TNewline]);
  }

  // ---- Arguments ----

  /** n names with commas between them. */
  function Names(n: nat): seq<Token> {
    if n == 0 then [] else if n == 1 then [TIdent("a")] else [TIdent("a"), TComma] + Names(n - 1)
  }

  lemma NameParses(ts: seq<Token>, t: Token)
    requires t == TComma || t == TRParen
    ensures Parsing.ParseExpression([TIdent("a"), t] + ts) == Parsing.Parsed(Var("a"), [t] + ts)
  {
    Printing.LeafStep(TIdent("a"), PREC_ASSIGNMENT, [t] + ts);
    Printing.ParseStops(Var("a"), PREC_ASSIGNMENT, [t] + ts);
    assert [TIdent("a"), t] + ts == [TIdent("a")] + ([t] + ts);
  }

  lemma {:induction false} NamesParseIff(n: nat, before: nat)
    requires n > 0
    ensures Parsing.ParseArgumentList(Names(n) + [TRParen], before).Parsed? <==> n + before <= 255
    ensures n + before <= 255 ==> Parsing.ParseArgumentList(Names(n) + [TRParen], before).rest == []
    decreases n
  {
    hide Parsing.ParseExpression, Parsing.ParseArgumentList;
    if n == 1 {
      NameParses([], TRParen);
      assert Names(1) + [TRParen] == [TIdent("a"), TRParen] + [];
      NamesEnd([], before);
    } else {
      var more := Names(n - 1) + [TRParen];
      NameParses(more, TComma);
      assert Names(n) + [TRParen] == [TIdent("a"), TComma] + more;
      NamesParseIff(n - 1, before + 1);
      NamesGoOn(more, before);
    }
  }

  lemma NamesEnd(ts: seq<Token>, before: nat)
    requires Parsing.ParseExpression([TIdent("a"), TRParen] + ts) == Parsing.Parsed(Var("a"), [TRParen] + ts)
    ensures Parsing.ParseArgumentList([TIdent("a"), TRParen] + ts, before)
         == if before >= 255 then Parsing.Bad else Parsing.Parsed(ECons(Var("a"), ENil), ts)
  {
    hide Parsing.ParseExpression;
    assert SkipNewlines([TIdent("a"), TRParen] + ts) == [TIdent("a"), TRParen] + ts;
    assert SkipNewlines([TRParen] + ts) == [TRParen] + ts && ([TRParen] + ts)[1..] == ts;
  }

  lemma NamesGoOn(more: seq<Token>, before: nat)
    requires Parsing.ParseExpression([TIdent("a"), TComma] + more) == Parsing.Parsed(Var("a"), [TComma] + more)
    ensures var all := Parsing.ParseArgumentList([TIdent("a"), TComma] + more, before);
            var rest := Parsing.ParseArgumentList(more, before + 1);
            if before >= 255 || rest.Bad? then all.Bad? else all == Parsing.Parsed(ECons(Var("a"), rest.value), rest.rest)
  {
    hide Parsing.ParseExpression;
    assert SkipNewlines([TIdent("a"), TComma] + more) == [TIdent("a"), TComma] + more;
    assert SkipNewlines([TComma] + more) == [TComma] + more && ([TComma] + more)[1..] == more;
  }

  /** A call takes 255 arguments. */
  lemma ArgumentLimitIff(n: nat)
    ensures Parsing.ParseExpression([TIdent("f"), TLParen] + Names(n) + [TRParen]).Parsed? <==> n <= 255
  {
    hide Parsing.ParseArgumentList, Parsing.ParseArguments, Parsing.ParseOperator, Parsing.ParsePrecedence, Parsing.ParseInfix;
    var ts := Names(n) + [TRParen];
    assert [TIdent("f"), TLParen] + Names(n) + [TRParen] == [TIdent("f")] + ([TLParen] + ts);
    Printing.LeafStep(TIdent("f"), PREC_ASSIGNMENT, [TLParen] + ts);
    NamesAsArguments(n);
    var args := Parsing.ParseArguments(ts);
    CallOf(args, ts);
    if args.Bad? {
      BadOperator(Var("f"), [TLParen] + ts);
    } else {
      Printing.InfixStep(Var("f"), [TLParen] + ts, PREC_ASSIGNMENT, Call(Var("f"), args.value), []);
      Printing.ParseStops(Call(Var("f"), args.value), PREC_ASSIGNMENT, []);
    }
  }

  lemma BadOperator(left: Expr, ts: seq<Token>)
    requires StartsWith(ts, TLParen) && Parsing.ParseOperator(left, ts).Bad?
    ensures Parsing.ParseInfix(left, ts, PREC_ASSIGNMENT).Bad?
  {
    hide Parsing.ParseOperator;
  }

  lemma CallOf(args: Parsing.Parsed<Exprs>, ts: seq<Token>)
    requires args == Parsing.ParseArguments(ts)
    ensures Parsing.ParseOperator(Var("f"), [TLParen] + ts)
         == if args.Bad? then Parsing.Bad else Parsing.Parsed(Call(Var("f"), args.value), args.rest)
  {
    hide Parsing.ParseArguments;
    assert ([TLParen] + ts)[1..] == ts;
  }

  lemma NamesAsArguments(n: nat)
    ensures Parsing.ParseArguments(Names(n) + [TRParen]).Parsed? <==> n <= 255
    ensures n <= 255 ==> Parsing.ParseArguments(Names(n) + [TRParen]).rest == []
  {
    hide Parsing.ParseArgumentList;
    if n == 0 {
      assert Names(n) + [TRParen] == [TRParen];
    } else {
      NamesParseIff(n, 0);
    }
  }
}
