/** The bytecode of a syntax tree (src/compiler.c), as a function of the tree, the address it is
    placed at and the number of constants before it.

    This is the two-pass specification of the single-pass compiler: here every jump already knows
    its target, because sizes do not depend on targets. `break` jumps have an unknown target while
    their loop is still being compiled, and are emitted as 0xFFFF until they are patched. */
module Codegen {
  import opened Bytes
  import opened Syntax
  import opened Values
  import opened Runtime
  import opened Machine

  const MAX_JUMP := 65535
  const MAX_CONSTANTS := 65536
  const MAX_BREAKS := 256
  const MAX_ARMS := 256

  // ---- Literals and operators ----

  /** The value a literal denotes. */
  function LiteralValue(lit: Literal): Value {
    match lit
    case IntLit(n) => Int(Wrap48(n))
    case FloatLit(d) => Float(d)
    case StrLit(s) => Str(s)
    case SymbolLit(s) => Str(s)
    case NilLit => Nil
    case TrueLit => Bool(true)
    case FalseLit => Bool(false)
  }

  function LiteralInstr(lit: Literal, k: nat): (i: Instr)
    ensures Size(i) == if LiteralConstants(lit) == [] then 1 else 3
  {
    match lit
    case NilLit => PushNil
    case TrueLit => PushTrue
    case FalseLit => PushFalse
    case _ => Constant(k)
  }

  function LiteralConstants(lit: Literal): seq<Value> {
    if lit.NilLit? || lit.TrueLit? || lit.FalseLit? then [] else [LiteralValue(lit)]
  }

  function BinaryCode(op: BinOp): BinCode {
    match op
    case Plus => OpAdd
    case Minus => OpSub
    case Star => OpMul
    case Slash => OpDiv
    case Percent => OpMod
    case StarStar => OpPower
    case EqualEqual => OpEqual
    case BangEqual => OpNotEqual
    case Less => OpLess
    case LessEqual => OpLessEqual
    case Greater => OpGreater
    case GreaterEqual => OpGreaterEqual
    case Amp => OpBand
    case Pipe => OpBor
    case Caret => OpBxor
    case LShift => OpShl
    case RShift => OpShr
  }

  function UnaryInstr(op: UnOp): (i: Instr)
    ensures Size(i) == 1 && OperandFits(i)
  {
    match op
    case Neg => OpNeg
    case Not => OpNot
    case BitNot => OpBnot
  }

  // ---- Expressions ----

  function ExprSize(e: Expr): nat {
    match e
    case Lit(lit) => if LiteralConstants(lit) == [] then 1 else 3
    case Var(_) => 3
    case Assign(_, value) => ExprSize(value) + 3
    case Unary(_, operand) => ExprSize(operand) + 1
    case Binary(_, l, r) => ExprSize(l) + ExprSize(r) + 1
    case And(l, r) => ExprSize(l) + 4 + ExprSize(r)
    case Or(l, r) => ExprSize(l) + 7 + ExprSize(r)
    case Call(callee, args) => ExprSize(callee) + ArgsSize(args) + 2
  }

  function ArgsSize(es: Exprs): nat {
    match es
    case ENil => 0
    case ECons(e, es) => ExprSize(e) + ArgsSize(es)
  }

  /** The constants an expression adds to the pool, in order; equal ones are not shared. */
  function ExprConstants(e: Expr): seq<Value> {
    match e
    case Lit(lit) => LiteralConstants(lit)
    case Var(name) => [Str(name)]
    case Assign(name, value) => [Str(name)] + ExprConstants(value)
    case Unary(_, operand) => ExprConstants(operand)
    case Binary(_, l, r) => ExprConstants(l) + ExprConstants(r)
    case And(l, r) => ExprConstants(l) + ExprConstants(r)
    case Or(l, r) => ExprConstants(l) + ExprConstants(r)
    case Call(callee, args) => ExprConstants(callee) + ArgsConstants(args)
  }

  function ArgsConstants(es: Exprs): seq<Value> {
    match es
    case ENil => []
    case ECons(e, es) => ExprConstants(e) + ArgsConstants(es)
  }

  /** The code of `e` when `k` constants come before its own. */
  function ExprCode(e: Expr, k: nat): (code: seq<Byte>)
    ensures |code| == ExprSize(e)
    decreases e
  {
    hide Encode, LiteralInstr, LiteralConstants, LiteralValue, ExprConstants, ArgsConstants, BinaryCode, BinOpcode;
    match e
    case Lit(lit) => Encode(LiteralInstr(lit, k))
    case Var(_) => Encode(GetGlobal(k))
    case Assign(_, value) => ExprCode(value, k + 1) + Encode(SetGlobal(k))
    case Unary(op, operand) => ExprCode(operand, k) + Encode(UnaryInstr(op))
    case Binary(op, l, r) =>
      ExprCode(l, k) + ExprCode(r, k + |ExprConstants(l)|) + Encode(Operate(BinaryCode(op)))
    case And(l, r) =>
      AndCode(ExprCode(l, k), ExprCode(r, k + |ExprConstants(l)|), ExprSize(r))
    case Or(l, r) =>
      OrCode(ExprCode(l, k), ExprCode(r, k + |ExprConstants(l)|), ExprSize(r))
    case Call(callee, args) =>
      ExprCode(callee, k) + ArgsCode(args, k + |ExprConstants(callee)|) + Encode(CallOp(args.Length()))
  }

  /** `and` jumps over its right operand when the left one is falsy. */
  function AndCode(left: seq<Byte>, right: seq<Byte>, size: nat): (code: seq<Byte>)
    ensures |code| == |left| + 4 + |right|
  {
    left + Encode(JumpIfFalse(1 + size)) + Encode(Pop) + right
  }

  /** `or` has no jump-if-true, so it jumps around an unconditional jump. */
  function OrCode(left: seq<Byte>, right: seq<Byte>, size: nat): (code: seq<Byte>)
    ensures |code| == |left| + 7 + |right|
  {
    left + Encode(JumpIfFalse(3)) + Encode(Jump(1 + size)) + Encode(Pop) + right
  }

  function ArgsCode(es: Exprs, k: nat): (code: seq<Byte>)
    ensures |code| == ArgsSize(es)
    decreases es
  {
    match es
    case ENil => []
    case ECons(e, es) => ExprCode(e, k) + ArgsCode(es, k + |ExprConstants(e)|)
  }

  /** No jump over an operand of and/or is too long. */
  predicate ExprFits(e: Expr) {
    match e
    case Lit(_) => true
    case Var(_) => true
    case Assign(_, value) => ExprFits(value)
    case Unary(_, operand) => ExprFits(operand)
    case Binary(_, l, r) => ExprFits(l) && ExprFits(r)
    case And(l, r) => ExprFits(l) && ExprFits(r) && 1 + ExprSize(r) <= MAX_JUMP
    case Or(l, r) => ExprFits(l) && ExprFits(r) && 1 + ExprSize(r) <= MAX_JUMP
    case Call(callee, args) => ExprFits(callee) && ArgsFit(args)
  }

  predicate ArgsFit(es: Exprs) {
    match es
    case ENil => true
    case ECons(e, es) => ExprFits(e) && ArgsFit(es)
  }

  // ---- The code of an expression in terms of its parts ----

  lemma CodeOfAssign(e: Expr, k: nat)
    requires e.Assign?
    ensures ExprCode(e, k) == ExprCode(e.value, k + 1) + Encode(SetGlobal(k))
    ensures ExprConstants(e) == [Str(e.name)] + ExprConstants(e.value)
    ensures ExprFits(e) <==> ExprFits(e.value)
  {
    hide Encode, Opcode, U16, ExprSize, ArgsSize, LiteralInstr, LiteralConstants, LiteralValue, BinaryCode, UnaryInstr;
  }

  lemma CodeOfUnary(e: Expr, k: nat)
    requires e.Unary?
    ensures ExprCode(e, k) == ExprCode(e.operand, k) + Encode(UnaryInstr(e.uop))
    ensures ExprConstants(e) == ExprConstants(e.operand)
    ensures ExprFits(e) <==> ExprFits(e.operand)
  {
    hide Encode, Opcode, U16, ExprSize, ArgsSize, LiteralInstr, LiteralConstants, LiteralValue, BinaryCode, UnaryInstr;
  }

  lemma CodeOfBinary(e: Expr, k: nat)
    requires e.Binary?
    ensures ExprCode(e, k) == ExprCode(e.left, k) + ExprCode(e.right, k + |ExprConstants(e.left)|) +
                              Encode(Operate(BinaryCode(e.op)))
    ensures ExprConstants(e) == ExprConstants(e.left) + ExprConstants(e.right)
    ensures ExprFits(e) <==> ExprFits(e.left) && ExprFits(e.right)
  {
    hide Encode, Opcode, U16, ExprSize, ArgsSize, LiteralInstr, LiteralConstants, LiteralValue, BinaryCode, UnaryInstr;
  }

  lemma CodeOfAnd(e: Expr, k: nat)
    requires e.And?
    ensures ExprCode(e, k) == ExprCode(e.left, k) + Encode(JumpIfFalse(1 + ExprSize(e.right))) + Encode(Pop) +
                              ExprCode(e.right, k + |ExprConstants(e.left)|)
    ensures ExprConstants(e) == ExprConstants(e.left) + ExprConstants(e.right)
    ensures ExprFits(e) <==> ExprFits(e.left) && ExprFits(e.right) && 1 + ExprSize(e.right) <= MAX_JUMP
  {
    hide Encode, Opcode, U16, ExprSize, ArgsSize, LiteralInstr, LiteralConstants, LiteralValue, BinaryCode, UnaryInstr;
  }

  lemma CodeOfOr(e: Expr, k: nat)
    requires e.Or?
    ensures ExprCode(e, k) == ExprCode(e.left, k) + Encode(JumpIfFalse(3)) + Encode(Jump(1 + ExprSize(e.right))) +
                              Encode(Pop) + ExprCode(e.right, k + |ExprConstants(e.left)|)
    ensures ExprConstants(e) == ExprConstants(e.left) + ExprConstants(e.right)
    ensures ExprFits(e) <==> ExprFits(e.left) && ExprFits(e.right) && 1 + ExprSize(e.right) <= MAX_JUMP
  {
    hide Encode, Opcode, U16, ExprSize, ArgsSize, LiteralInstr, LiteralConstants, LiteralValue, BinaryCode, UnaryInstr;
  }

  lemma CodeOfCall(e: Expr, k: nat)
    requires e.Call?
    ensures ExprCode(e, k) == ExprCode(e.callee, k) + ArgsCode(e.args, k + |ExprConstants(e.callee)|) +
                              Encode(CallOp(e.args.Length()))
    ensures ExprConstants(e) == ExprConstants(e.callee) + ArgsConstants(e.args)
    ensures ExprFits(e) <==> ExprFits(e.callee) && ArgsFit(e.args)
  {
    hide Encode, Opcode, U16, ExprSize, ArgsSize, LiteralInstr, LiteralConstants, LiteralValue, BinaryCode, UnaryInstr;
  }

  // ---- Statements ----

  /** Where `break` goes. */
  datatype Target = Unknown | Address(a: nat)

  function StmtSize(s: Stmt): nat {
    match s
    case ExprStmt(e) => ExprSize(e) + 1
    case If(arms) => ArmsSize(arms)
    case While(c, b) => ExprSize(c) + BlockSize(b) + 8
    case Until(c, b) => ExprSize(c) + BlockSize(b) + 9
    case Loop(b) => BlockSize(b) + 3
    case Break => 3
    case Next => 3
  }

  function ArmsSize(arms: Arms): nat {
    match arms
    case Arm(c, b, rest) => ExprSize(c) + BlockSize(b) + 8 + ArmsSize(rest)
    case Else(b) => BlockSize(b)
  }

  function BlockSize(b: Block): nat {
    match b
    case BNil => 0
    case BCons(s, b) => StmtSize(s) + BlockSize(b)
  }

  function StmtConstants(s: Stmt): seq<Value> {
    match s
    case ExprStmt(e) => ExprConstants(e)
    case If(arms) => ArmsConstants(arms)
    case While(c, b) => ExprConstants(c) + BlockConstants(b)
    case Until(c, b) => ExprConstants(c) + BlockConstants(b)
    case Loop(b) => BlockConstants(b)
    case Break => []
    case Next => []
  }

  function ArmsConstants(arms: Arms): seq<Value> {
    match arms
    case Arm(c, b, rest) => ExprConstants(c) + BlockConstants(b) + ArmsConstants(rest)
    case Else(b) => BlockConstants(b)
  }

  function BlockConstants(b: Block): seq<Value> {
    match b
    case BNil => []
    case BCons(s, b) => StmtConstants(s) + BlockConstants(b)
  }

  function BreakOffset(at: nat, exit: Target): nat {
    if exit.Unknown? then 0xFFFF else if at + 3 <= exit.a then exit.a - (at + 3) else 0
  }

  function NextOffset(at: nat, start: nat): nat {
    if start <= at then at + 3 - start else 0
  }

  /** The code of `s` at address `at` in a loop that starts at `start` and is left to `exit`. */
  function StmtCode(s: Stmt, at: nat, k: nat, start: nat, exit: Target): (code: seq<Byte>)
    ensures |code| == StmtSize(s)
    decreases s
  {
    hide Encode, ExprCode, ExprConstants, ExprSize, ArmsSize, BlockSize;
    match s
    case ExprStmt(e) => ExprCode(e, k) + Encode(Pop)
    case If(arms) => ArmsCode(arms, at, k, start, exit)
    case While(c, b) =>
      ExprCode(c, k) + Encode(JumpIfFalse(BlockSize(b) + 4)) + Encode(Pop) +
      BlockCode(b, at + ExprSize(c) + 4, k + |ExprConstants(c)|, at, Address(at + StmtSize(s))) +
      Encode(LoopBack(ExprSize(c) + BlockSize(b) + 7)) + Encode(Pop)
    case Until(c, b) =>
      ExprCode(c, k) + Encode(OpNot) + Encode(JumpIfFalse(BlockSize(b) + 4)) + Encode(Pop) +
      BlockCode(b, at + ExprSize(c) + 5, k + |ExprConstants(c)|, at, Address(at + StmtSize(s))) +
      Encode(LoopBack(ExprSize(c) + BlockSize(b) + 8)) + Encode(Pop)
    case Loop(b) =>
      BlockCode(b, at, k, at, Address(at + StmtSize(s))) + Encode(LoopBack(BlockSize(b) + 3))
    case Break => Encode(Jump(BreakOffset(at, exit)))
    case Next => Encode(LoopBack(NextOffset(at, start)))
  }

  function ArmsCode(arms: Arms, at: nat, k: nat, start: nat, exit: Target): (code: seq<Byte>)
    ensures |code| == ArmsSize(arms)
    decreases arms
  {
    match arms
    case Arm(c, b, rest) =>
      ExprCode(c, k) + Encode(JumpIfFalse(BlockSize(b) + 4)) + Encode(Pop) +
      BlockCode(b, at + ExprSize(c) + 4, k + |ExprConstants(c)|, start, exit) +
      Encode(Jump(1 + ArmsSize(rest))) + Encode(Pop) +
      ArmsCode(rest, at + ExprSize(c) + BlockSize(b) + 8, k + |ExprConstants(c)| + |BlockConstants(b)|, start, exit)
    case Else(b) => BlockCode(b, at, k, start, exit)
  }

  function BlockCode(b: Block, at: nat, k: nat, start: nat, exit: Target): (code: seq<Byte>)
    ensures |code| == BlockSize(b)
    decreases b
  {
    match b
    case BNil => []
    case BCons(s, b) =>
      StmtCode(s, at, k, start, exit) +
      BlockCode(b, at + StmtSize(s), k + |StmtConstants(s)|, start, exit)
  }

  /** The operand addresses of the `break` jumps that leave the enclosing loop, in order. */
  function StmtBreaks(s: Stmt, at: nat): seq<nat> {
    match s
    case ExprStmt(_) => []
    case If(arms) => ArmsBreaks(arms, at)
    case While(_, _) => []
    case Until(_, _) => []
    case Loop(_) => []
    case Break => [at + 1]
    case Next => []
  }

  function ArmsBreaks(arms: Arms, at: nat): seq<nat> {
    match arms
    case Arm(c, b, rest) =>
      BlockBreaks(b, at + ExprSize(c) + 4) + ArmsBreaks(rest, at + ExprSize(c) + BlockSize(b) + 8)
    case Else(b) => BlockBreaks(b, at)
  }

  function BlockBreaks(b: Block, at: nat): seq<nat> {
    match b
    case BNil => []
    case BCons(s, b) => StmtBreaks(s, at) + BlockBreaks(b, at + StmtSize(s))
  }

  /** Every jump reaches its target with a 16-bit offset, and no loop has more than 256 breaks. */
  predicate StmtFits(s: Stmt, at: nat, start: nat, exit: Target)
    decreases s
  {
    match s
    case ExprStmt(e) => ExprFits(e)
    case If(arms) => ArmsFits(arms, at, start, exit)
    case While(c, b) =>
      && ExprFits(c) && ExprSize(c) + BlockSize(b) + 7 <= MAX_JUMP
      && LoopBodyFits(b, at + ExprSize(c) + 4, at, at + StmtSize(s))
    case Until(c, b) =>
      && ExprFits(c) && ExprSize(c) + BlockSize(b) + 8 <= MAX_JUMP
      && LoopBodyFits(b, at + ExprSize(c) + 5, at, at + StmtSize(s))
    case Loop(b) =>
      && BlockSize(b) + 3 <= MAX_JUMP
      && LoopBodyFits(b, at, at, at + StmtSize(s))
    case Break => exit.Unknown? || BreakOffset(at, exit) <= MAX_JUMP
    case Next => NextOffset(at, start) <= MAX_JUMP
  }

  predicate LoopBodyFits(b: Block, at: nat, start: nat, exit: nat)
    decreases b, 1
  {
    BlockFits(b, at, start, Address(exit)) && |BlockBreaks(b, at)| <= MAX_BREAKS
  }

  predicate ArmsFits(arms: Arms, at: nat, start: nat, exit: Target)
    decreases arms
  {
    match arms
    case Arm(c, b, rest) =>
      && ExprFits(c) && BlockSize(b) + 4 <= MAX_JUMP && 1 + ArmsSize(rest) <= MAX_JUMP
      && BlockFits(b, at + ExprSize(c) + 4, start, exit)
      && ArmsFits(rest, at + ExprSize(c) + BlockSize(b) + 8, start, exit)
    case Else(b) => BlockFits(b, at, start, exit)
  }

  predicate BlockFits(b: Block, at: nat, start: nat, exit: Target)
    decreases b, 0
  {
    match b
    case BNil => true
    case BCons(s, b) => StmtFits(s, at, start, exit) && BlockFits(b, at + StmtSize(s), start, exit)
  }

  /** The guarded arms of a chain: each has a jump to its end. */
  function ArmCount(arms: Arms): nat {
    match arms
    case Arm(_, _, rest) => 1 + ArmCount(rest)
    case Else(_) => 0
  }

  /** No chain has more guarded arms than the array of its exit jumps has room for. */
  predicate ChainsFit(b: Block) {
    match b
    case BNil => true
    case BCons(s, b) => StmtChainsFit(s) && ChainsFit(b)
  }

  predicate StmtChainsFit(s: Stmt) {
    match s
    case If(arms) => ArmCount(arms) <= MAX_ARMS && ArmsChainsFit(arms)
    case While(_, b) => ChainsFit(b)
    case Until(_, b) => ChainsFit(b)
    case Loop(b) => ChainsFit(b)
    case _ => true
  }

  predicate ArmsChainsFit(arms: Arms) {
    match arms
    case Arm(_, b, rest) => ChainsFit(b) && ArmsChainsFit(rest)
    case Else(b) => ChainsFit(b)
  }

  // ---- The code of a loop and of an arm in terms of their parts ----

  lemma CodeOfWhile(s: Stmt, at: nat, k: nat, start: nat, exit: Target)
    requires s.While?
    ensures StmtCode(s, at, k, start, exit) ==
            ExprCode(s.cond, k) + Encode(JumpIfFalse(BlockSize(s.body) + 4)) + Encode(Pop) +
            BlockCode(s.body, at + ExprSize(s.cond) + 4, k + |ExprConstants(s.cond)|, at, Address(at + StmtSize(s))) +
            Encode(LoopBack(ExprSize(s.cond) + BlockSize(s.body) + 7)) + Encode(Pop)
    ensures StmtConstants(s) == ExprConstants(s.cond) + BlockConstants(s.body)
    ensures StmtSize(s) == ExprSize(s.cond) + BlockSize(s.body) + 8
  {
    hide Encode, ExprCode, ExprSize, ExprConstants, BlockCode, BlockConstants, BlockSize;
  }

  lemma CodeOfUntil(s: Stmt, at: nat, k: nat, start: nat, exit: Target)
    requires s.Until?
    ensures StmtCode(s, at, k, start, exit) ==
            ExprCode(s.cond, k) + Encode(OpNot) + Encode(JumpIfFalse(BlockSize(s.body) + 4)) + Encode(Pop) +
            BlockCode(s.body, at + ExprSize(s.cond) + 5, k + |ExprConstants(s.cond)|, at, Address(at + StmtSize(s))) +
            Encode(LoopBack(ExprSize(s.cond) + BlockSize(s.body) + 8)) + Encode(Pop)
    ensures StmtConstants(s) == ExprConstants(s.cond) + BlockConstants(s.body)
    ensures StmtSize(s) == ExprSize(s.cond) + BlockSize(s.body) + 9
  {
    hide Encode, ExprCode, ExprSize, ExprConstants, BlockCode, BlockConstants, BlockSize;
  }

  lemma CodeOfArm(arms: Arms, at: nat, k: nat, start: nat, exit: Target)
    requires arms.Arm?
    ensures ArmsCode(arms, at, k, start, exit) ==
            ExprCode(arms.cond, k) + Encode(JumpIfFalse(BlockSize(arms.body) + 4)) + Encode(Pop) +
            BlockCode(arms.body, at + ExprSize(arms.cond) + 4, k + |ExprConstants(arms.cond)|, start, exit) +
            Encode(Jump(1 + ArmsSize(arms.rest))) + Encode(Pop) +
            ArmsCode(arms.rest, at + ExprSize(arms.cond) + BlockSize(arms.body) + 8,
                     k + |ExprConstants(arms.cond)| + |BlockConstants(arms.body)|, start, exit)
    ensures ArmsConstants(arms) == ExprConstants(arms.cond) + BlockConstants(arms.body) + ArmsConstants(arms.rest)
    ensures ArmsSize(arms) == ExprSize(arms.cond) + BlockSize(arms.body) + 8 + ArmsSize(arms.rest)
  {
    hide Encode, ExprCode, ExprSize, ExprConstants, BlockCode, BlockConstants, BlockSize;
  }

  // ---- Scripts ----

  /** end_compiler returns nil after the last statement. */
  function ScriptCode(b: Block): seq<Byte> {
    BlockCode(b, 0, 0, 0, Unknown) + Encode(PushNil) + Encode(Return)
  }

  /** The limits of the bytecode format: 16-bit constant indices and jump offsets. */
  predicate ScriptFits(b: Block) {
    BlockFits(b, 0, 0, Unknown) && |BlockConstants(b)| <= MAX_CONSTANTS
  }

  /** The chunk of a script. */
  function ScriptChunk(b: Block): Chunk {
    Chunk(ScriptCode(b), BlockConstants(b))
  }
}
