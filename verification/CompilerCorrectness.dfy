/** The bytecode of a script means what the script means. */
module CompilerCorrectness {
  import opened Bytes
  import opened Syntax
  import opened Runtime
  import opened Machine
  import opened Codegen
  import opened Evaluation
  import opened Printing
  import opened Simulation

  // ---- Generated bytes decode to the instructions they were generated from ----

  lemma HoldsSplit(code: seq<Byte>, at: nat, a: seq<Byte>, b: seq<Byte>)
    requires Holds(code, at, a + b)
    ensures Holds(code, at, a) && Holds(code, at + |a|, b)
  {
    assert code[at..at + |a + b|][..|a|] == (a + b)[..|a|] == a;
    assert code[at..at + |a + b|][|a|..] == (a + b)[|a|..] == b;
  }

  lemma HoldsSplit3(code: seq<Byte>, at: nat, a: seq<Byte>, b: seq<Byte>, c: seq<Byte>)
    requires Holds(code, at, a + b + c)
    ensures Holds(code, at, a) && Holds(code, at + |a|, b) && Holds(code, at + |a| + |b|, c)
  {
    HoldsSplit(code, at, a + b, c);
    HoldsSplit(code, at, a, b);
  }

  lemma HoldsSplit4(code: seq<Byte>, at: nat, a: seq<Byte>, b: seq<Byte>, c: seq<Byte>, d: seq<Byte>)
    requires Holds(code, at, a + b + c + d)
    ensures Holds(code, at, a) && Holds(code, at + |a|, b) && Holds(code, at + |a| + |b|, c)
    ensures Holds(code, at + |a| + |b| + |c|, d)
  {
    hide Holds;
    HoldsSplit(code, at, a + b + c, d);
    HoldsSplit3(code, at, a, b, c);
  }

  lemma HoldsSplit5(code: seq<Byte>, at: nat, a: seq<Byte>, b: seq<Byte>, c: seq<Byte>, d: seq<Byte>, e: seq<Byte>)
    requires Holds(code, at, a + b + c + d + e)
    ensures Holds(code, at, a) && Holds(code, at + |a|, b) && Holds(code, at + |a| + |b|, c)
    ensures Holds(code, at + |a| + |b| + |c|, d) && Holds(code, at + |a| + |b| + |c| + |d|, e)
  {
    hide Holds;
    HoldsSplit(code, at, a + b + c + d, e);
    HoldsSplit4(code, at, a, b, c, d);
  }

  lemma HoldsSplit6(code: seq<Byte>, at: nat, a: seq<Byte>, b: seq<Byte>, c: seq<Byte>, d: seq<Byte>, e: seq<Byte>,
                    f: seq<Byte>)
    requires Holds(code, at, a + b + c + d + e + f)
    ensures Holds(code, at, a) && Holds(code, at + |a|, b) && Holds(code, at + |a| + |b|, c)
    ensures Holds(code, at + |a| + |b| + |c|, d) && Holds(code, at + |a| + |b| + |c| + |d|, e)
    ensures Holds(code, at + |a| + |b| + |c| + |d| + |e|, f)
  {
    hide Holds;
    HoldsSplit(code, at, a + b + c + d + e, f);
    HoldsSplit5(code, at, a, b, c, d, e);
  }

  lemma HoldsSplit7(code: seq<Byte>, at: nat, a: seq<Byte>, b: seq<Byte>, c: seq<Byte>, d: seq<Byte>, e: seq<Byte>,
                    f: seq<Byte>, g: seq<Byte>)
    requires Holds(code, at, a + b + c + d + e + f + g)
    ensures Holds(code, at, a) && Holds(code, at + |a|, b) && Holds(code, at + |a| + |b|, c)
    ensures Holds(code, at + |a| + |b| + |c|, d) && Holds(code, at + |a| + |b| + |c| + |d|, e)
    ensures Holds(code, at + |a| + |b| + |c| + |d| + |e|, f)
    ensures Holds(code, at + |a| + |b| + |c| + |d| + |e| + |f|, g)
  {
    hide Holds;
    HoldsSplit(code, at, a + b + c + d + e + f, g);
    HoldsSplit6(code, at, a, b, c, d, e, f);
  }

  /** The constants `part` stand in the pool from index `k` on. */
  ghost predicate Pooled(pool: seq<Value>, k: nat, part: seq<Value>) {
    k + |part| <= |pool| && k + |part| <= MAX_CONSTANTS && pool[k..k + |part|] == part
  }

  lemma PooledSplit(pool: seq<Value>, k: nat, a: seq<Value>, b: seq<Value>)
    requires Pooled(pool, k, a + b)
    ensures Pooled(pool, k, a) && Pooled(pool, k + |a|, b)
  {
    assert pool[k..k + |a + b|][..|a|] == (a + b)[..|a|] == a;
    assert pool[k..k + |a + b|][|a|..] == (a + b)[|a|..] == b;
  }

  lemma PooledOne(ch: Chunk, k: nat, v: Value)
    requires Pooled(ch.constants, k, [v])
    ensures ConstantAt(Load(ch), k, v) && k < MAX_CONSTANTS
  {
    assert ch.constants[k] == ch.constants[k..k + 1][0];
  }

  lemma PlaceInstr(ch: Chunk, at: nat, i: Instr)
    requires Holds(ch.code, at, Encode(i)) && OperandFits(i)
    ensures InstrAt(Load(ch), at, i)
  {
    DecodeEncode(ch.code, at, i);
  }

  lemma {:induction false} PlaceExpr(ch: Chunk, e: Expr, at: nat, k: nat)
    requires Holds(ch.code, at, ExprCode(e, k)) && Pooled(ch.constants, k, ExprConstants(e))
    requires ExprFits(e) && CallsFit(e)
    ensures ExprAt(Load(ch), e, at, k)
    decreases e, 1
  {
    hide Holds, Pooled, Encode, InstrAt, ConstantAt, ExprCode, ExprConstants, ExprSize, ExprFits, CallsFit, ExprAt;
    match e
    case Lit(_) => PlaceLeaf(ch, e, at, k);
    case Var(_) => PlaceLeaf(ch, e, at, k);
    case Assign(_, _) => PlaceAssign(ch, e, at, k);
    case Unary(_, _) => PlaceUnary(ch, e, at, k);
    case Binary(_, _, _) => PlaceBinary(ch, e, at, k);
    case And(_, _) => PlaceAnd(ch, e, at, k);
    case Or(_, _) => PlaceOr(ch, e, at, k);
    case Call(_, _) => PlaceCall(ch, e, at, k);
  }

  lemma PlaceLeaf(ch: Chunk, e: Expr, at: nat, k: nat)
    requires e.Lit? || e.Var?
    requires Holds(ch.code, at, ExprCode(e, k)) && Pooled(ch.constants, k, ExprConstants(e))
    ensures ExprAt(Load(ch), e, at, k)
  {
    hide Holds, Pooled, Encode, InstrAt, ConstantAt;
    if e.Var? {
      PooledOne(ch, k, Str(e.name));
      PlaceInstr(ch, at, GetGlobal(k));
    } else {
      if LiteralInstr(e.lit, k).Constant? { PooledOne(ch, k, LiteralValue(e.lit)); }
      PlaceInstr(ch, at, LiteralInstr(e.lit, k));
    }
  }

  lemma {:induction false} PlaceAssign(ch: Chunk, e: Expr, at: nat, k: nat)
    requires e.Assign? && Holds(ch.code, at, ExprCode(e, k)) && Pooled(ch.constants, k, ExprConstants(e))
    requires ExprFits(e) && CallsFit(e)
    ensures ExprAt(Load(ch), e, at, k)
    decreases e, 0
  {
    hide Holds, Pooled, Encode, InstrAt, ConstantAt, ExprCode, ExprConstants, ArgsCode, ArgsConstants;
    CodeOfAssign(e, k);
    PooledSplit(ch.constants, k, [Str(e.name)], ExprConstants(e.value));
    PooledOne(ch, k, Str(e.name));
    HoldsSplit(ch.code, at, ExprCode(e.value, k + 1), Encode(SetGlobal(k)));
    PlaceExpr(ch, e.value, at, k + 1);
    PlaceInstr(ch, at + ExprSize(e.value), SetGlobal(k));
  }

  lemma {:induction false} PlaceUnary(ch: Chunk, e: Expr, at: nat, k: nat)
    requires e.Unary? && Holds(ch.code, at, ExprCode(e, k)) && Pooled(ch.constants, k, ExprConstants(e))
    requires ExprFits(e) && CallsFit(e)
    ensures ExprAt(Load(ch), e, at, k)
    decreases e, 0
  {
    hide Holds, Pooled, Encode, InstrAt, ConstantAt, ExprCode, ExprConstants, ArgsCode, ArgsConstants;
    CodeOfUnary(e, k);
    HoldsSplit(ch.code, at, ExprCode(e.operand, k), Encode(UnaryInstr(e.uop)));
    PlaceExpr(ch, e.operand, at, k);
    PlaceInstr(ch, at + ExprSize(e.operand), UnaryInstr(e.uop));
  }

  lemma {:induction false} PlaceBinary(ch: Chunk, e: Expr, at: nat, k: nat)
    requires e.Binary? && Holds(ch.code, at, ExprCode(e, k)) && Pooled(ch.constants, k, ExprConstants(e))
    requires ExprFits(e) && CallsFit(e)
    ensures ExprAt(Load(ch), e, at, k)
    decreases e, 0
  {
    hide Holds, Pooled, Encode, InstrAt, ConstantAt, ExprCode, ExprConstants, ArgsCode, ArgsConstants;
    CodeOfBinary(e, k);
    var k' := k + |ExprConstants(e.left)|;
    var i := Operate(BinaryCode(e.op));
    HoldsSplit3(ch.code, at, ExprCode(e.left, k), ExprCode(e.right, k'), Encode(i));
    PooledSplit(ch.constants, k, ExprConstants(e.left), ExprConstants(e.right));
    PlaceExpr(ch, e.left, at, k);
    PlaceExpr(ch, e.right, at + ExprSize(e.left), k');
    PlaceInstr(ch, at + ExprSize(e.left) + ExprSize(e.right), i);
  }

  lemma {:induction false} PlaceAnd(ch: Chunk, e: Expr, at: nat, k: nat)
    requires e.And? && Holds(ch.code, at, ExprCode(e, k)) && Pooled(ch.constants, k, ExprConstants(e))
    requires ExprFits(e) && CallsFit(e)
    ensures ExprAt(Load(ch), e, at, k)
    decreases e, 0
  {
    hide Holds, Pooled, Encode, InstrAt, ConstantAt, ExprCode, ExprConstants, ArgsCode, ArgsConstants;
    CodeOfAnd(e, k);
    var k' := k + |ExprConstants(e.left)|;
    var jump := JumpIfFalse(1 + ExprSize(e.right));
    HoldsSplit4(ch.code, at, ExprCode(e.left, k), Encode(jump), Encode(Pop), ExprCode(e.right, k'));
    PooledSplit(ch.constants, k, ExprConstants(e.left), ExprConstants(e.right));
    PlaceExpr(ch, e.left, at, k);
    PlaceInstr(ch, at + ExprSize(e.left), jump);
    PlaceInstr(ch, at + ExprSize(e.left) + 3, Pop);
    PlaceExpr(ch, e.right, at + ExprSize(e.left) + 4, k');
  }

  lemma {:induction false} PlaceOr(ch: Chunk, e: Expr, at: nat, k: nat)
    requires e.Or? && Holds(ch.code, at, ExprCode(e, k)) && Pooled(ch.constants, k, ExprConstants(e))
    requires ExprFits(e) && CallsFit(e)
    ensures ExprAt(Load(ch), e, at, k)
    decreases e, 0
  {
    hide Holds, Pooled, Encode, InstrAt, ConstantAt, ExprCode, ExprConstants, ArgsCode, ArgsConstants;
    CodeOfOr(e, k);
    var k' := k + |ExprConstants(e.left)|;
    var jump := Jump(1 + ExprSize(e.right));
    HoldsSplit5(ch.code, at, ExprCode(e.left, k), Encode(JumpIfFalse(3)), Encode(jump), Encode(Pop),
                ExprCode(e.right, k'));
    PooledSplit(ch.constants, k, ExprConstants(e.left), ExprConstants(e.right));
    PlaceExpr(ch, e.left, at, k);
    PlaceInstr(ch, at + ExprSize(e.left), JumpIfFalse(3));
    PlaceInstr(ch, at + ExprSize(e.left) + 3, jump);
    PlaceInstr(ch, at + ExprSize(e.left) + 6, Pop);
    PlaceExpr(ch, e.right, at + ExprSize(e.left) + 7, k');
  }

  lemma {:induction false} PlaceCall(ch: Chunk, e: Expr, at: nat, k: nat)
    requires e.Call? && Holds(ch.code, at, ExprCode(e, k)) && Pooled(ch.constants, k, ExprConstants(e))
    requires ExprFits(e) && CallsFit(e)
    ensures ExprAt(Load(ch), e, at, k)
    decreases e, 0
  {
    hide Holds, Pooled, Encode, InstrAt, ConstantAt, ExprCode, ExprConstants, ArgsCode, ArgsConstants, ArgsAt, ArgsSize,
         ExprSize, ArgsFit, AllCallsFit, Load;
    CodeOfCall(e, k);
    var k' := k + |ExprConstants(e.callee)|;
    HoldsSplit3(ch.code, at, ExprCode(e.callee, k), ArgsCode(e.args, k'), Encode(CallOp(e.args.Length())));
    PooledSplit(ch.constants, k, ExprConstants(e.callee), ArgsConstants(e.args));
    PlaceExpr(ch, e.callee, at, k);
    PlaceArgs(ch, e.args, at + ExprSize(e.callee), k');
    PlaceInstr(ch, at + ExprSize(e.callee) + ArgsSize(e.args), CallOp(e.args.Length()));
  }

  lemma {:induction false} PlaceArgs(ch: Chunk, es: Exprs, at: nat, k: nat)
    requires Holds(ch.code, at, ArgsCode(es, k)) && Pooled(ch.constants, k, ArgsConstants(es))
    requires ArgsFit(es) && AllCallsFit(es)
    ensures ArgsAt(Load(ch), es, at, k)
    decreases es, 2
  {
    hide Holds, Pooled, ExprCode, ExprConstants, ExprSize, ExprFits, CallsFit, ExprAt;
    if es.ECons? {
      var k' := k + |ExprConstants(es.head)|;
      HoldsSplit(ch.code, at, ExprCode(es.head, k), ArgsCode(es.tail, k'));
      PooledSplit(ch.constants, k, ExprConstants(es.head), ArgsConstants(es.tail));
      PlaceExpr(ch, es.head, at, k);
      PlaceArgs(ch, es.tail, at + ExprSize(es.head), k');
    }
  }

  /** A loop is far enough from both of its ends for its jumps, and `break` and `next` have one. */
  ghost predicate InLoop(at: nat, size: nat, start: nat, exit: Target) {
    exit.Address? ==> start <= at && at + size <= exit.a
  }

  /** A loop body and its backward jump. */
  lemma {:induction false} PlaceLoop(ch: Chunk, b: Block, at: nat, k: nat, start: nat, exit: nat)
    requires start <= at && Holds(ch.code, at, BlockCode(b, at, k, start, Address(exit)))
    requires Holds(ch.code, at + BlockSize(b), Encode(LoopBack(at + BlockSize(b) + 3 - start)))
    requires Pooled(ch.constants, k, BlockConstants(b))
    requires LoopBodyFits(b, at, start, exit) && WellFormed(b, true)
    requires at + BlockSize(b) + 3 <= exit && at + BlockSize(b) + 3 - start <= MAX_JUMP
    ensures LoopAt(Load(ch), b, at, k, start, exit)
    decreases b, 2
  {
    hide Holds, Pooled, BlockCode, BlockConstants, BlockFits, BlockBreaks, WellFormed, BlockAt;
    PlaceBlock(ch, b, at, k, start, Address(exit));
    PlaceInstr(ch, at + BlockSize(b), LoopBack(at + BlockSize(b) + 3 - start));
  }

  lemma {:induction false} PlaceStmt(ch: Chunk, s: Stmt, at: nat, k: nat, start: nat, exit: Target)
    requires Holds(ch.code, at, StmtCode(s, at, k, start, exit)) && Pooled(ch.constants, k, StmtConstants(s))
    requires StmtFits(s, at, start, exit) && WellFormedStmt(s, exit.Address?) && InLoop(at, StmtSize(s), start, exit)
    ensures StmtAt(Load(ch), s, at, k, start, exit)
    decreases s, 4
  {
    hide Holds, Pooled, ExprCode, ExprConstants, BlockCode, BlockConstants, BlockFits, BlockBreaks, WellFormed, BlockAt,
         ExprAt, ArmsCode, ArmsConstants, ArmsFits, WellFormedArms, ArmsAt, CallsFit, ExprFits, Encode, InstrAt, LoopAt,
         LoopBodyFits, ExprSize, BlockSize, ArmsSize;
    match s
    case ExprStmt(e) =>
      HoldsSplit(ch.code, at, ExprCode(e, k), Encode(Pop));
      PlaceExpr(ch, e, at, k);
      PlaceInstr(ch, at + ExprSize(e), Pop);
    case If(arms) => PlaceArms(ch, arms, at, k, start, exit);
    case While(_, _) => PlaceWhile(ch, s, at, k, start, exit);
    case Until(_, _) => PlaceUntil(ch, s, at, k, start, exit);
    case Loop(b) =>
      HoldsSplit(ch.code, at, BlockCode(b, at, k, at, Address(at + StmtSize(s))), Encode(LoopBack(BlockSize(b) + 3)));
      PlaceLoop(ch, b, at, k, at, at + StmtSize(s));
    case Break => PlaceInstr(ch, at, Jump(BreakOffset(at, exit)));
    case Next => PlaceInstr(ch, at, LoopBack(NextOffset(at, start)));
  }

  lemma {:induction false} PlaceWhile(ch: Chunk, s: Stmt, at: nat, k: nat, start: nat, exit: Target)
    requires s.While?
    requires Holds(ch.code, at, StmtCode(s, at, k, start, exit)) && Pooled(ch.constants, k, StmtConstants(s))
    requires StmtFits(s, at, start, exit) && WellFormedStmt(s, exit.Address?)
    ensures StmtAt(Load(ch), s, at, k, start, exit)
    decreases s, 3
  {
    hide Holds, Pooled, Encode, ExprCode, ExprConstants, BlockCode, BlockConstants, StmtCode, StmtConstants, BlockFits,
         BlockBreaks, WellFormed, BlockAt, ExprAt, CallsFit, ExprFits, LoopAt, LoopBodyFits, BlockSize, ExprSize, StmtSize,
         InstrAt;
    var (c, b) := (s.cond, s.body);
    var k', body := k + |ExprConstants(c)|, at + ExprSize(c) + 4;
    var end := at + StmtSize(s);
    var jump, back := JumpIfFalse(BlockSize(b) + 4), LoopBack(ExprSize(c) + BlockSize(b) + 7);
    CodeOfWhile(s, at, k, start, exit);
    HoldsSplit6(ch.code, at, ExprCode(c, k), Encode(jump), Encode(Pop), BlockCode(b, body, k', at, Address(end)),
                Encode(back), Encode(Pop));
    PooledSplit(ch.constants, k, ExprConstants(c), BlockConstants(b));
    PlaceExpr(ch, c, at, k);
    PlaceInstr(ch, at + ExprSize(c), jump);
    PlaceInstr(ch, at + ExprSize(c) + 3, Pop);
    PlaceLoop(ch, b, body, k', at, end);
    PlaceInstr(ch, end - 1, Pop);
  }

  lemma {:induction false} PlaceUntil(ch: Chunk, s: Stmt, at: nat, k: nat, start: nat, exit: Target)
    requires s.Until?
    requires Holds(ch.code, at, StmtCode(s, at, k, start, exit)) && Pooled(ch.constants, k, StmtConstants(s))
    requires StmtFits(s, at, start, exit) && WellFormedStmt(s, exit.Address?)
    ensures StmtAt(Load(ch), s, at, k, start, exit)
    decreases s, 3
  {
    hide Holds, Pooled, Encode, ExprCode, ExprConstants, BlockCode, BlockConstants, StmtCode, StmtConstants, BlockFits,
         BlockBreaks, WellFormed, BlockAt, ExprAt, CallsFit, ExprFits, LoopAt, LoopBodyFits, BlockSize, ExprSize, StmtSize,
         InstrAt;
    var (c, b) := (s.cond, s.body);
    var k', body := k + |ExprConstants(c)|, at + ExprSize(c) + 5;
    var end := at + StmtSize(s);
    var jump, back := JumpIfFalse(BlockSize(b) + 4), LoopBack(ExprSize(c) + BlockSize(b) + 8);
    CodeOfUntil(s, at, k, start, exit);
    HoldsSplit7(ch.code, at, ExprCode(c, k), Encode(OpNot), Encode(jump), Encode(Pop),
                BlockCode(b, body, k', at, Address(end)), Encode(back), Encode(Pop));
    PooledSplit(ch.constants, k, ExprConstants(c), BlockConstants(b));
    PlaceExpr(ch, c, at, k);
    PlaceInstr(ch, at + ExprSize(c), OpNot);
    PlaceInstr(ch, at + ExprSize(c) + 1, jump);
    PlaceInstr(ch, at + ExprSize(c) + 4, Pop);
    PlaceLoop(ch, b, body, k', at, end);
    PlaceInstr(ch, end - 1, Pop);
  }

  lemma {:induction false} PlaceArms(ch: Chunk, arms: Arms, at: nat, k: nat, start: nat, exit: Target)
    requires Holds(ch.code, at, ArmsCode(arms, at, k, start, exit)) && Pooled(ch.constants, k, ArmsConstants(arms))
    requires ArmsFits(arms, at, start, exit) && WellFormedArms(arms, exit.Address?)
    requires InLoop(at, ArmsSize(arms), start, exit)
    ensures ArmsAt(Load(ch), arms, at, k, start, exit)
    decreases arms, 3
  {
    hide Holds, Pooled, Encode, ExprCode, ExprConstants, BlockCode, BlockConstants, BlockFits, WellFormed, BlockAt, ExprAt,
         CallsFit, ExprFits;
    if arms.Else? {
      PlaceBlock(ch, arms.body, at, k, start, exit);
    } else {
      PlaceArm(ch, arms, at, k, start, exit);
    }
  }

  lemma {:induction false} PlaceArm(ch: Chunk, arms: Arms, at: nat, k: nat, start: nat, exit: Target)
    requires arms.Arm?
    requires Holds(ch.code, at, ArmsCode(arms, at, k, start, exit)) && Pooled(ch.constants, k, ArmsConstants(arms))
    requires ArmsFits(arms, at, start, exit) && WellFormedArms(arms, exit.Address?)
    requires InLoop(at, ArmsSize(arms), start, exit)
    ensures ArmsAt(Load(ch), arms, at, k, start, exit)
    decreases arms, 2
  {
    hide Holds, Pooled, Encode, ExprCode, ExprConstants, BlockCode, BlockConstants, ArmsCode, ArmsConstants, BlockFits,
         WellFormed, BlockAt, ExprAt, CallsFit, ExprFits, BlockSize, ExprSize, InstrAt;
    var Arm(c, b, rest) := arms;
    var mid, k' := at + ExprSize(c), k + |ExprConstants(c)|;
    var next, k'' := mid + BlockSize(b) + 8, k' + |BlockConstants(b)|;
    var skip, leave := JumpIfFalse(BlockSize(b) + 4), Jump(1 + ArmsSize(rest));
    CodeOfArm(arms, at, k, start, exit);
    HoldsSplit7(ch.code, at, ExprCode(c, k), Encode(skip), Encode(Pop), BlockCode(b, mid + 4, k', start, exit),
                Encode(leave), Encode(Pop), ArmsCode(rest, next, k'', start, exit));
    PooledSplit(ch.constants, k, ExprConstants(c) + BlockConstants(b), ArmsConstants(rest));
    PooledSplit(ch.constants, k, ExprConstants(c), BlockConstants(b));
    PlaceExpr(ch, c, at, k);
    PlaceInstr(ch, mid, skip);
    PlaceInstr(ch, mid + 3, Pop);
    PlaceBlock(ch, b, mid + 4, k', start, exit);
    PlaceInstr(ch, mid + 4 + BlockSize(b), leave);
    PlaceInstr(ch, next - 1, Pop);
    PlaceArms(ch, rest, next, k'', start, exit);
  }

  lemma {:induction false} PlaceBlock(ch: Chunk, b: Block, at: nat, k: nat, start: nat, exit: Target)
    requires Holds(ch.code, at, BlockCode(b, at, k, start, exit)) && Pooled(ch.constants, k, BlockConstants(b))
    requires BlockFits(b, at, start, exit) && WellFormed(b, exit.Address?) && InLoop(at, BlockSize(b), start, exit)
    ensures BlockAt(Load(ch), b, at, k, start, exit)
    decreases b, 1
  {
    hide Holds, Pooled, StmtCode, StmtConstants, StmtSize, StmtFits, WellFormedStmt, StmtAt;
    if b.BCons? {
      var next, k' := at + StmtSize(b.head), k + |StmtConstants(b.head)|;
      HoldsSplit(ch.code, at, StmtCode(b.head, at, k, start, exit), BlockCode(b.tail, next, k', start, exit));
      PooledSplit(ch.constants, k, StmtConstants(b.head), BlockConstants(b.tail));
      PlaceStmt(ch, b.head, at, k, start, exit);
      PlaceBlock(ch, b.tail, next, k', start, exit);
    }
  }

  // ---- The theorems ----

  /** What the machine has to do after `n` steps, given how the evaluation of the script ends. */
  ghost predicate Agrees(c: Config, n: nat, o: Outcome, fuel: nat) {
    match o
    case Normal(g) => c == Halted(Nil, g)
    case Raised(e, g) => c == Failed(e, g)
    case OutOfFuel => fuel <= n && c.Running?
    case Broke(_) => false
    case Continued(_) => false
  }

  lemma HoldsAll(code: seq<Byte>)
    ensures Holds(code, 0, code)
  {
  }

  lemma PooledAll(pool: seq<Value>)
    requires |pool| <= MAX_CONSTANTS
    ensures Pooled(pool, 0, pool)
  {
  }

  lemma PlaceScript(b: Block)
    requires ScriptFits(b) && WellFormed(b, false)
    ensures BlockAt(Load(ScriptChunk(b)), b, 0, 0, 0, Unknown)
    ensures InstrAt(Load(ScriptChunk(b)), BlockSize(b), PushNil)
    ensures InstrAt(Load(ScriptChunk(b)), BlockSize(b) + 1, Return)
  {
    hide BlockCode, BlockConstants, BlockFits, WellFormed, BlockAt, Holds, Pooled, Encode, InstrAt, BlockSize;
    var ch := ScriptChunk(b);
    HoldsAll(ch.code);
    PooledAll(ch.constants);
    HoldsSplit3(ch.code, 0, BlockCode(b, 0, 0, 0, Unknown), Encode(PushNil), Encode(Return));
    PlaceBlock(ch, b, 0, 0, 0, Unknown);
    PlaceInstr(ch, BlockSize(b), PushNil);
    PlaceInstr(ch, BlockSize(b) + 1, Return);
  }

  /** Running the chunk does what evaluating the script does: the same globals, or the same run-time
      error with the same globals, or no end. */
  lemma {:induction false} CompiledScriptRuns(h: Host, b: Block, slot0: Value, g: Globals, fuel: nat) returns (n: nat)
    requires ScriptFits(b) && WellFormed(b, false)
    ensures Agrees(Steps(h, Load(ScriptChunk(b)), At(0, [slot0], g), n), n, EvalBlock(h, b, g, 1, fuel), fuel)
  {
    hide BlockCode, BlockConstants, BlockFits, WellFormed, BlockAt, EvalBlock, ScriptChunk, ScriptFits;
    PlaceScript(b);
    var p, from := Load(ScriptChunk(b)), At(0, [slot0], g);
    n := RunBlock(h, p, b, 0, 0, 0, Unknown, [slot0], g, fuel);
    var o := EvalBlock(h, b, g, 1, fuel);
    if o.Normal? {
      RunEpilogue(h, p, BlockSize(b), slot0, o.g);
      Then(h, p, from, n, At(BlockSize(b), [slot0], o.g), 2, Halted(Nil, o.g));
      n := n + 2;
    }
  }

  lemma RunEpilogue(h: Host, p: Program, at: nat, slot0: Value, g: Globals)
    requires InstrAt(p, at, PushNil) && InstrAt(p, at + 1, Return)
    ensures Steps(h, p, At(at, [slot0], g), 2) == Halted(Nil, g)
  {
    StepAt(h, p, PushNil, at, [slot0], g);
    StepAt(h, p, Return, at + 1, [slot0, Nil], g);
    assert [slot0] + [Nil] == [slot0, Nil];
    Then(h, p, At(at, [slot0], g), 1, At(at + 1, [slot0, Nil], g), 1, Halted(Nil, g));
  }

  /** Conversely, whenever the machine stops, the script has that meaning. In particular it never
      gets stuck: no stack underflow, no stray jump, no unknown opcode. */
  lemma {:induction false} StoppedRunIsEvaluation(h: Host, b: Block, slot0: Value, g: Globals, n: nat)
    requires ScriptFits(b) && WellFormed(b, false)
    requires !Steps(h, Load(ScriptChunk(b)), At(0, [slot0], g), n).Running?
    ensures var c := Steps(h, Load(ScriptChunk(b)), At(0, [slot0], g), n);
            || (c.Halted? && EvalBlock(h, b, g, 1, n + 1) == Normal(c.globals) && c.result == Nil)
            || (c.Failed? && EvalBlock(h, b, g, 1, n + 1) == Raised(c.error, c.globals))
  {
    hide BlockCode, BlockConstants, BlockFits, WellFormed, BlockAt, EvalBlock, ScriptChunk, ScriptFits, Execute;
    var p, from := Load(ScriptChunk(b)), At(0, [slot0], g);
    var m := CompiledScriptRuns(h, b, slot0, g, n + 1);
    var c := Steps(h, p, from, n);
    if n <= m {
      StepsAdd(h, p, from, n, m - n);
      StepsFinal(h, p, c, m - n);
    } else {
      StepsAdd(h, p, from, m, n - m);
      var d := Steps(h, p, from, m);
      if !d.Running? { StepsFinal(h, p, d, n - m); }
    }
  }
}
