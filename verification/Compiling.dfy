/** The single-pass compiler of src/compiler.c: a Pratt parser that appends bytecode while it reads
    tokens and patches jumps once their targets are known. It never builds a tree.

    Every parse method is proved to emit exactly the code (module Codegen) of the tree that the
    grammar (module Parsing) has for the tokens it consumed, and to report an error exactly when
    there is no such tree or its code breaks a limit of the bytecode format. After the first error
    the source goes on parsing only to report more of them; here the methods return at once, since
    compile() yields no function either way. */
module Compiling {
  import opened Bytes
  import opened Sequences
  import opened Syntax
  import opened Runtime
  import opened Machine
  import opened Chains
  import opened Codegen
  import Parsing

  /** current_loop: where `next` goes back to, and the `break` jumps to patch at its end. */
  datatype LoopState = NoLoop | InLoop(start: nat, breaks: seq<nat>)

  /** The parser and the chunk it fills, as a value. */
  datatype Emitter = Emitter(rest: seq<Token>, code: seq<Byte>, constants: seq<Value>, loop: LoopState)

  // ---- Back-patching ----

  /** The two operand bytes at `offset` now make a jump from there to `target`. */
  function Patched(code: seq<Byte>, offset: nat, target: nat): (r: seq<Byte>)
    requires offset + 2 <= target && offset + 2 <= |code|
    ensures |r| == |code|
  {
    var n := U16(target - offset - 2);
    code[offset := n[0]][offset + 1 := n[1]]
  }

  predicate IsForwardJump(i: Instr) {
    i.Jump? || i.JumpIfFalse?
  }

  function WithOffset(i: Instr, n: nat): (r: Instr)
    requires IsForwardJump(i)
    ensures IsForwardJump(r) && Size(r) == 3
  {
    if i.Jump? then Jump(n) else JumpIfFalse(n)
  }

  /** Patching an emitted jump over `post` gives the jump that was meant. */
  lemma PatchForward(pre: seq<Byte>, i: Instr, post: seq<Byte>)
    requires IsForwardJump(i)
    ensures var code := pre + Encode(WithOffset(i, 0xFFFF)) + post;
            Patched(code, |pre| + 1, |code|) == pre + Encode(WithOffset(i, |post|)) + post
  {
    var code := pre + Encode(WithOffset(i, 0xFFFF)) + post;
    var patched := Patched(code, |pre| + 1, |code|);
    var goal := pre + Encode(WithOffset(i, |post|)) + post;
    var n := U16(|post|);
    assert Encode(WithOffset(i, |post|)) == [Opcode(i), n[0], n[1]];
    assert Encode(WithOffset(i, 0xFFFF))[0] == Opcode(i);
    assert patched == goal;
  }

  // ---- What an expression leaves behind ----

  /** The code of `e` keeps within the limits when `k` constants come before it. */
  ghost predicate ExprOk(e: Expr, k: nat) {
    ExprFits(e) && k + |ExprConstants(e)| <= MAX_CONSTANTS
  }

  /** Reading `r` from `before` either failed or appended the code and constants of the expression. */
  ghost predicate ExprDone(before: Emitter, r: Parsing.Parsed<Expr>, after: Emitter, failed: bool) {
    match r
    case Bad => failed
    case Parsed(e, rest) =>
      if ExprOk(e, |before.constants|) then
        !failed && after == ExprEmitted(before, e, rest)
      else failed
  }

  function ExprEmitted(before: Emitter, e: Expr, rest: seq<Token>): (after: Emitter)
    ensures after.rest == rest
  {
    Emitter(rest, before.code + ExprCode(e, |before.constants|), before.constants + ExprConstants(e), before.loop)
  }

  ghost predicate ArgsOk(es: Exprs, k: nat) {
    ArgsFit(es) && k + |ArgsConstants(es)| <= MAX_CONSTANTS
  }

  function ArgsEmitted(before: Emitter, es: Exprs, rest: seq<Token>): (after: Emitter)
    ensures after.rest == rest
  {
    Emitter(rest, before.code + ArgsCode(es, |before.constants|), before.constants + ArgsConstants(es), before.loop)
  }

  ghost predicate ArgsDone(before: Emitter, r: Parsing.Parsed<Exprs>, after: Emitter, failed: bool) {
    match r
    case Bad => failed
    case Parsed(es, rest) =>
      if ArgsOk(es, |before.constants|) then !failed && after == ArgsEmitted(before, es, rest) else failed
  }

  /** An operand that breaks a limit makes everything the infix loop builds from it break it too. */
  lemma {:induction false} InfixKeepsBroken(left: Expr, ts: seq<Token>, p: nat, k: nat)
    requires !ExprOk(left, k)
    ensures Parsing.ParseInfix(left, ts, p).Parsed? ==> !ExprOk(Parsing.ParseInfix(left, ts, p).value, k)
    decreases |ts|
  {
    hide ExprOk, Parsing.ParseOperator;
    if ts != [] && p <= RulePrec(ts[0]) && RulePrec(ts[0]) > PREC_NONE {
      OperatorKeepsBroken(left, ts, k);
      var r := Parsing.ParseOperator(left, ts);
      if r.Parsed? { InfixKeepsBroken(r.value, r.rest, p, k); }
    }
  }

  lemma OperatorKeepsBroken(left: Expr, ts: seq<Token>, k: nat)
    requires ts != [] && RulePrec(ts[0]) > PREC_NONE && !ExprOk(left, k)
    ensures Parsing.ParseOperator(left, ts).Parsed? ==> !ExprOk(Parsing.ParseOperator(left, ts).value, k)
  {
    hide Parsing.ParsePrecedence, Parsing.ParseArguments;
    var r := Parsing.ParseOperator(left, ts);
    if r.Parsed? {
      assert ExprFits(r.value) ==> ExprFits(left);
      assert |ExprConstants(r.value)| >= |ExprConstants(left)|;
    }
  }

  // Composition of an expression from its parts, on values only.

  lemma LiteralDone(before: Emitter, lit: Literal, rest: seq<Token>)
    requires |before.constants| <= MAX_CONSTANTS
    ensures var k := |before.constants|;
            && (ExprOk(Lit(lit), k) <==> k + |LiteralConstants(lit)| <= MAX_CONSTANTS)
            && ExprEmitted(before, Lit(lit), rest) ==
               Emitter(rest, before.code + Encode(LiteralInstr(lit, k)), before.constants + LiteralConstants(lit), before.loop)
  {
  }

  lemma AssignDone(before: Emitter, name: string, r: Parsing.Parsed<Expr>, after: Emitter, failed: bool)
    requires |before.constants| < MAX_CONSTANTS
    requires ExprDone(before.(constants := before.constants + [Str(name)]), r, after, failed)
    ensures r.Parsed? ==>
              if failed then !ExprOk(Assign(name, r.value), |before.constants|)
              else ExprOk(Assign(name, r.value), |before.constants|) &&
                   ExprEmitted(before, Assign(name, r.value), r.rest) ==
                   after.(code := after.code + Encode(SetGlobal(|before.constants|)))
    ensures r.Bad? ==> failed
  {
    hide Encode, ExprCode, ExprConstants, ExprFits, ExprSize, ArgsCode, ArgsConstants, ArgsFit, ArgsSize, BinaryCode;
    if r.Parsed? {
      var k, e := |before.constants|, Assign(name, r.value);
      CodeOfAssign(e, k);
      Assoc(before.constants, [Str(name)], ExprConstants(r.value));
      Assoc(before.code, ExprCode(r.value, k + 1), Encode(SetGlobal(k)));
    }
  }

  lemma UnaryDone(before: Emitter, op: UnOp, r: Parsing.Parsed<Expr>, after: Emitter, failed: bool)
    requires ExprDone(before, r, after, failed)
    ensures r.Parsed? ==>
              if failed then !ExprOk(Unary(op, r.value), |before.constants|)
              else ExprOk(Unary(op, r.value), |before.constants|) &&
                   ExprEmitted(before, Unary(op, r.value), r.rest) ==
                   after.(code := after.code + Encode(UnaryInstr(op)))
    ensures r.Bad? ==> failed
  {
    hide Encode, ExprCode, ExprConstants, ExprFits, ExprSize, ArgsCode, ArgsConstants, ArgsFit, ArgsSize, BinaryCode;
    if r.Parsed? {
      var k, e := |before.constants|, Unary(op, r.value);
      CodeOfUnary(e, k);
      Assoc(before.code, ExprCode(r.value, k), Encode(UnaryInstr(op)));
    }
  }

  /** A binary operator: the right operand has been read after the left one was emitted. */
  lemma BinaryDone(before: Emitter, left: Expr, op: BinOp, ts: seq<Token>, r: Parsing.Parsed<Expr>, after: Emitter, failed: bool)
    requires ExprOk(left, |before.constants|)
    requires ExprDone(ExprEmitted(before, left, ts), r, after, failed)
    ensures r.Parsed? ==>
              if failed then !ExprOk(Binary(op, left, r.value), |before.constants|)
              else ExprOk(Binary(op, left, r.value), |before.constants|) &&
                   ExprEmitted(before, Binary(op, left, r.value), r.rest) ==
                   after.(code := after.code + Encode(Operate(BinaryCode(op))))
    ensures r.Bad? ==> failed
  {
    hide Encode, ExprCode, ExprConstants, ExprFits, ExprSize, ArgsCode, ArgsConstants, ArgsFit, ArgsSize, BinaryCode;
    if r.Parsed? {
      var k, k' := |before.constants|, |before.constants| + |ExprConstants(left)|;
      CodeOfBinary(Binary(op, left, r.value), k);
      Regroup(before.code, ExprCode(left, k), ExprCode(r.value, k'), Encode(Operate(BinaryCode(op))));
      Assoc(before.constants, ExprConstants(left), ExprConstants(r.value));
    }
  }

  lemma Regroup5<T>(a: seq<T>, b: seq<T>, c: seq<T>, d: seq<T>, e: seq<T>)
    ensures a + b + c + d + e == a + (b + c + d + e)
  {
  }

  lemma Regroup6<T>(a: seq<T>, b: seq<T>, c: seq<T>, d: seq<T>, e: seq<T>, f: seq<T>)
    ensures a + b + c + d + e + f == a + (b + c + d + e + f)
  {
  }

  /** Patching a jump over everything emitted after it. */
  lemma PatchOver(code: seq<Byte>, pre: seq<Byte>, i: Instr, a: seq<Byte>, b: seq<Byte>)
    requires IsForwardJump(i) && code == pre + Encode(WithOffset(i, 0xFFFF)) + a + b
    ensures |pre| + 3 <= |code|
    ensures Patched(code, |pre| + 1, |code|) == pre + Encode(WithOffset(i, |a| + |b|)) + a + b
  {
    hide Encode, Patched;
    Assoc(pre + Encode(WithOffset(i, 0xFFFF)), a, b);
    PatchForward(pre, i, a + b);
    Assoc(pre + Encode(WithOffset(i, |a| + |b|)), a, b);
  }

  /** `and`: the right operand has been read after an unpatched jump and a pop. */
  lemma AndDone(before: Emitter, left: Expr, ts: seq<Token>, mid: Emitter, r: Parsing.Parsed<Expr>, after: Emitter, failed: bool)
    requires ExprOk(left, |before.constants|)
    requires mid == ExprEmitted(before, left, ts).(
                      code := before.code + ExprCode(left, |before.constants|) + Encode(JumpIfFalse(0xFFFF)) + Encode(Pop))
    requires ExprDone(mid, r, after, failed)
    ensures r.Bad? ==> failed
    ensures r.Parsed? && failed ==> !ExprOk(And(left, r.value), |before.constants|)
    ensures !failed ==>
              var jump := |before.code| + ExprSize(left) + 1;
              && jump + 2 <= |after.code|
              && (ExprOk(And(left, r.value), |before.constants|) <==> |after.code| - jump - 2 <= MAX_JUMP)
              && (|after.code| - jump - 2 <= MAX_JUMP ==>
                    ExprEmitted(before, And(left, r.value), r.rest) ==
                    after.(code := Patched(after.code, jump, |after.code|)))
  {
    hide Encode, ExprCode, ExprConstants, ExprFits, ExprSize, ArgsCode, ArgsConstants, ArgsFit, ArgsSize, BinaryCode, Patched;
    if r.Parsed? { CodeOfAnd(And(left, r.value), |before.constants|); }
    if !failed {
      var k, k' := |before.constants|, |before.constants| + |ExprConstants(left)|;
      var pre, right := before.code + ExprCode(left, k), ExprCode(r.value, k');
      PatchOver(after.code, pre, JumpIfFalse(0), Encode(Pop), right);
      Regroup5(before.code, ExprCode(left, k), Encode(JumpIfFalse(1 + ExprSize(r.value))), Encode(Pop), right);
      Assoc(before.constants, ExprConstants(left), ExprConstants(r.value));
    }
  }

  /** `or`: the first jump has been patched already when the right operand is read. */
  lemma OrDone(before: Emitter, left: Expr, ts: seq<Token>, mid: Emitter, r: Parsing.Parsed<Expr>, after: Emitter, failed: bool)
    requires ExprOk(left, |before.constants|)
    requires mid == ExprEmitted(before, left, ts).(
                      code := before.code + ExprCode(left, |before.constants|) + Encode(JumpIfFalse(3)) +
                              Encode(Jump(0xFFFF)) + Encode(Pop))
    requires ExprDone(mid, r, after, failed)
    ensures r.Bad? ==> failed
    ensures r.Parsed? && failed ==> !ExprOk(Or(left, r.value), |before.constants|)
    ensures !failed ==>
              var jump := |before.code| + ExprSize(left) + 4;
              && jump + 2 <= |after.code|
              && (ExprOk(Or(left, r.value), |before.constants|) <==> |after.code| - jump - 2 <= MAX_JUMP)
              && (|after.code| - jump - 2 <= MAX_JUMP ==>
                    ExprEmitted(before, Or(left, r.value), r.rest) ==
                    after.(code := Patched(after.code, jump, |after.code|)))
  {
    hide Encode, ExprCode, ExprConstants, ExprFits, ExprSize, ArgsCode, ArgsConstants, ArgsFit, ArgsSize, BinaryCode, Patched;
    if r.Parsed? { CodeOfOr(Or(left, r.value), |before.constants|); }
    if !failed {
      var k, k' := |before.constants|, |before.constants| + |ExprConstants(left)|;
      var pre, right := before.code + ExprCode(left, k) + Encode(JumpIfFalse(3)), ExprCode(r.value, k');
      PatchOver(after.code, pre, Jump(0), Encode(Pop), right);
      Regroup6(before.code, ExprCode(left, k), Encode(JumpIfFalse(3)), Encode(Jump(1 + ExprSize(r.value))), Encode(Pop),
               right);
      Assoc(before.constants, ExprConstants(left), ExprConstants(r.value));
    }
  }

  lemma CallDone(before: Emitter, callee: Expr, ts: seq<Token>, r: Parsing.Parsed<Exprs>, after: Emitter, failed: bool)
    requires ExprOk(callee, |before.constants|)
    requires ArgsDone(ExprEmitted(before, callee, ts), r, after, failed)
    ensures r.Bad? ==> failed
    ensures r.Parsed? ==>
              if failed then !ExprOk(Call(callee, r.value), |before.constants|)
              else ExprOk(Call(callee, r.value), |before.constants|) &&
                   ExprEmitted(before, Call(callee, r.value), r.rest) ==
                   after.(code := after.code + Encode(CallOp(r.value.Length())))
  {
    hide Encode, ExprCode, ExprConstants, ExprFits, ExprSize, ArgsCode, ArgsConstants, ArgsFit, ArgsSize, BinaryCode;
    if r.Parsed? {
      var k, k' := |before.constants|, |before.constants| + |ExprConstants(callee)|;
      CodeOfCall(Call(callee, r.value), k);
      Regroup(before.code, ExprCode(callee, k), ArgsCode(r.value, k'), Encode(CallOp(r.value.Length())));
      Assoc(before.constants, ExprConstants(callee), ArgsConstants(r.value));
    }
  }

  /** One more argument after those emitted so far. */
  lemma ArgumentDone(before: Emitter, e: Expr, mid: Emitter, ts: seq<Token>, r: Parsing.Parsed<Exprs>, after: Emitter,
                     failed: bool)
    requires ExprOk(e, |before.constants|) && mid == ExprEmitted(before, e, ts)
    requires ArgsDone(mid, r, after, failed)
    ensures r.Bad? ==> failed
    ensures r.Parsed? ==>
              if failed then !ArgsOk(ECons(e, r.value), |before.constants|)
              else ArgsOk(ECons(e, r.value), |before.constants|) && after == ArgsEmitted(before, ECons(e, r.value), r.rest)
  {
    hide Encode, ExprCode, ExprConstants, ExprFits, ExprSize;
    if r.Parsed? {
      var k, k' := |before.constants|, |before.constants| + |ExprConstants(e)|;
      Assoc(before.code, ExprCode(e, k), ArgsCode(r.value, k'));
      Assoc(before.constants, ExprConstants(e), ArgsConstants(r.value));
    }
  }

  lemma ArgumentListParses(ts: seq<Token>, n: nat)
    ensures var r := Parsing.ParseExpression(Syntax.SkipNewlines(ts));
            var rest := if r.Parsed? then Syntax.SkipNewlines(r.rest) else [];
            Parsing.ParseArgumentList(ts, n) ==
            if r.Bad? || n >= Parsing.MAX_ARGS then Parsing.Bad
            else if StartsWith(rest, TComma) then
              match Parsing.ParseArgumentList(rest[1..], n + 1)
              case Bad => Parsing.Bad
              case Parsed(es, after) => Parsing.Parsed(ECons(r.value, es), after)
            else if StartsWith(rest, TRParen) then Parsing.Parsed(ECons(r.value, ENil), rest[1..])
            else Parsing.Bad
  {
    hide Parsing.ParseExpression, Syntax.SkipNewlines;
  }

  lemma LastArgumentDone(before: Emitter, e: Expr, rest: seq<Token>)
    requires ExprOk(e, |before.constants|)
    ensures ArgsOk(ECons(e, ENil), |before.constants|)
    ensures ArgsEmitted(before, ECons(e, ENil), rest) == ExprEmitted(before, e, rest)
  {
    hide ExprCode, ExprConstants, ExprFits;
    assert ArgsFit(ENil) && ArgsConstants(ENil) == [];
    assert ArgsCode(ECons(e, ENil), |before.constants|) == ExprCode(e, |before.constants|) + [] ==
           ExprCode(e, |before.constants|);
    assert ArgsConstants(ECons(e, ENil)) == ExprConstants(e) + [] == ExprConstants(e);
  }

  lemma BrokenArgument(e: Expr, k: nat)
    requires !ExprOk(e, k)
    ensures forall es :: !ArgsOk(ECons(e, es), k)
  {
    hide ExprCode, ExprConstants, ExprFits;
    forall es ensures !ArgsOk(ECons(e, es), k) {
      assert |ArgsConstants(ECons(e, es))| >= |ExprConstants(e)|;
    }
  }

  lemma VariableParses(before: Emitter, name: string, canAssign: bool)
    requires before.rest != [] && before.rest[0] == TIdent(name)
    ensures Parsing.ParsePrefix(before.rest, canAssign) ==
            if canAssign && StartsWith(before.rest[1..], TEqual) then
              match Parsing.ParseExpression(Syntax.SkipNewlines(before.rest[1..][1..]))
              case Bad => Parsing.Bad
              case Parsed(e, rest) => Parsing.Parsed(Assign(name, e), rest)
            else Parsing.Parsed(Var(name), before.rest[1..])
    ensures var k := |before.constants|;
            && (ExprOk(Var(name), k) <==> k < MAX_CONSTANTS)
            && ExprEmitted(before, Var(name), before.rest[1..]) ==
               Emitter(before.rest[1..], before.code + Encode(GetGlobal(k)), before.constants + [Str(name)], before.loop)
    ensures |before.constants| >= MAX_CONSTANTS ==>
              forall e :: !ExprOk(Assign(name, e), |before.constants|)
  {
    if canAssign && StartsWith(before.rest[1..], TEqual) {
      assert before.rest[1..][1..] == before.rest[2..];
    }
    forall e ensures |ExprConstants(Assign(name, e))| > 0 {
      assert ExprConstants(Assign(name, e)) == [Str(name)] + ExprConstants(e);
    }
  }

  // ---- What a statement leaves behind ----

  function AddBreaks(l: LoopState, more: seq<nat>): LoopState {
    if l.NoLoop? then l else InLoop(l.start, l.breaks + more)
  }

  function LoopStart(l: LoopState): nat {
    if l.NoLoop? then 0 else l.start
  }

  predicate RoomForBreaks(l: LoopState, more: seq<nat>) {
    l.InLoop? ==> |l.breaks| + |more| <= MAX_BREAKS
  }

  ghost predicate StmtOk(s: Stmt, before: Emitter) {
    && StmtFits(s, |before.code|, LoopStart(before.loop), Unknown)
    && |before.constants| + |StmtConstants(s)| <= MAX_CONSTANTS
    && RoomForBreaks(before.loop, StmtBreaks(s, |before.code|))
  }

  function StmtEmitted(before: Emitter, s: Stmt, rest: seq<Token>): (after: Emitter)
    ensures after.rest == rest
  {
    var at := |before.code|;
    Emitter(rest, before.code + StmtCode(s, at, |before.constants|, LoopStart(before.loop), Unknown),
            before.constants + StmtConstants(s), AddBreaks(before.loop, StmtBreaks(s, at)))
  }

  ghost predicate StmtDone(before: Emitter, r: Parsing.Parsed<Stmt>, after: Emitter, failed: bool) {
    match r
    case Bad => failed
    case Parsed(s, rest) =>
      if StmtOk(s, before) then !failed && after == StmtEmitted(before, s, rest) else failed
  }

  ghost predicate BlockOk(b: Block, before: Emitter) {
    && BlockFits(b, |before.code|, LoopStart(before.loop), Unknown)
    && |before.constants| + |BlockConstants(b)| <= MAX_CONSTANTS
    && RoomForBreaks(before.loop, BlockBreaks(b, |before.code|))
  }

  function BlockEmitted(before: Emitter, b: Block, rest: seq<Token>): (after: Emitter)
    ensures after.rest == rest
  {
    var at := |before.code|;
    Emitter(rest, before.code + BlockCode(b, at, |before.constants|, LoopStart(before.loop), Unknown),
            before.constants + BlockConstants(b), AddBreaks(before.loop, BlockBreaks(b, at)))
  }

  ghost predicate BlockDone(before: Emitter, r: Parsing.Parsed<Block>, after: Emitter, failed: bool) {
    match r
    case Bad => failed
    case Parsed(b, rest) =>
      if BlockOk(b, before) then !failed && after == BlockEmitted(before, b, rest) else failed
  }

  ghost predicate ArmsOk(arms: Arms, before: Emitter) {
    && ArmsFits(arms, |before.code|, LoopStart(before.loop), Unknown)
    && |before.constants| + |ArmsConstants(arms)| <= MAX_CONSTANTS
    && RoomForBreaks(before.loop, ArmsBreaks(arms, |before.code|))
  }

  function ArmsEmitted(before: Emitter, arms: Arms, rest: seq<Token>): (after: Emitter)
    ensures after.rest == rest
  {
    var at := |before.code|;
    Emitter(rest, before.code + ArmsCode(arms, at, |before.constants|, LoopStart(before.loop), Unknown),
            before.constants + ArmsConstants(arms), AddBreaks(before.loop, ArmsBreaks(arms, at)))
  }

  ghost predicate ArmsDone(before: Emitter, r: Parsing.Parsed<Arms>, after: Emitter, failed: bool) {
    match r
    case Bad => failed
    case Parsed(arms, rest) =>
      if ArmsOk(arms, before) then !failed && after == ArmsEmitted(before, arms, rest) else failed
  }

  // ---- Patching the breaks of a loop ----

  ghost predicate InRange(code: seq<Byte>, sites: seq<nat>, target: nat) {
    forall i :: 0 <= i < |sites| ==> sites[i] + 2 <= target && sites[i] + 2 <= |code|
  }

  ghost function PatchedAll(code: seq<Byte>, sites: seq<nat>, target: nat): (r: seq<Byte>)
    requires InRange(code, sites, target)
    ensures |r| == |code|
    decreases |sites|
  {
    if sites == [] then code else PatchedAll(Patched(code, sites[0], target), sites[1..], target)
  }

  lemma {:induction false} PatchedAllSplit(code: seq<Byte>, a: seq<nat>, b: seq<nat>, target: nat)
    requires InRange(code, a + b, target)
    ensures InRange(code, a, target) && InRange(code, b, target)
    ensures PatchedAll(code, a + b, target) == PatchedAll(PatchedAll(code, a, target), b, target)
    decreases |a|
  {
    assert forall i :: 0 <= i < |a| ==> a[i] == (a + b)[i];
    assert forall i :: 0 <= i < |b| ==> b[i] == (a + b)[|a| + i];
    if a == [] {
      assert a + b == b;
    } else {
      assert (a + b)[1..] == a[1..] + b;
      PatchedAllSplit(Patched(code, a[0], target), a[1..], b, target);
    }
  }

  /** One more site patched after the others, the way the compiler's loop does it. */
  lemma PatchedAllSnoc(code: seq<Byte>, sites: seq<nat>, n: nat, target: nat)
    requires InRange(code, sites, target) && n < |sites|
    ensures InRange(code, sites[..n], target) && InRange(code, sites[..n + 1], target)
    ensures PatchedAll(code, sites[..n + 1], target) == Patched(PatchedAll(code, sites[..n], target), sites[n], target)
  {
    assert sites[..n + 1] == sites[..n] + [sites[n]];
    PatchedAllSplit(code, sites[..n], [sites[n]], target);
    var c := PatchedAll(code, sites[..n], target);
    assert PatchedAll(Patched(c, sites[n], target), [], target) == Patched(c, sites[n], target);
    assert [sites[n]][1..] == [];
  }

  /** Patching an emitted jump to any later target. */
  lemma PatchTo(pre: seq<Byte>, i: Instr, post: seq<Byte>, target: nat)
    requires IsForwardJump(i) && |pre| + 3 <= target
    ensures Patched(pre + Encode(WithOffset(i, 0xFFFF)) + post, |pre| + 1, target) ==
            pre + Encode(WithOffset(i, target - |pre| - 3)) + post
  {
    var code := pre + Encode(WithOffset(i, 0xFFFF)) + post;
    var n := target - |pre| - 3;
    var goal := pre + Encode(WithOffset(i, n)) + post;
    assert Encode(WithOffset(i, n)) == [Opcode(i), U16(n)[0], U16(n)[1]];
    assert Encode(WithOffset(i, 0xFFFF))[0] == Opcode(i);
    assert Patched(code, |pre| + 1, target) == goal;
  }

  /** All `break` jumps of a piece of code lie inside it. */
  ghost predicate Inside(sites: seq<nat>, from: nat, to: nat) {
    forall i :: 0 <= i < |sites| ==> from < sites[i] && sites[i] + 2 <= to
  }

  lemma InsideConcat(a: seq<nat>, b: seq<nat>, from: nat, mid: nat, to: nat)
    requires Inside(a, from, mid) && from <= mid <= to && Inside(b, mid, to)
    ensures Inside(a + b, from, to)
  {
  }

  lemma {:induction false} BlockBreaksInside(b: Block, at: nat)
    ensures Inside(BlockBreaks(b, at), at, at + BlockSize(b))
    decreases b
  {
    hide StmtBreaks, StmtSize;
    if b.BCons? {
      StmtBreaksInside(b.head, at);
      BlockBreaksInside(b.tail, at + StmtSize(b.head));
      InsideConcat(StmtBreaks(b.head, at), BlockBreaks(b.tail, at + StmtSize(b.head)), at, at + StmtSize(b.head),
                   at + BlockSize(b));
    }
  }

  lemma {:induction false} StmtBreaksInside(s: Stmt, at: nat)
    ensures Inside(StmtBreaks(s, at), at, at + StmtSize(s))
    decreases s
  {
    if s.If? { ArmsBreaksInside(s.arms, at); }
  }

  lemma {:induction false} ArmsBreaksInside(arms: Arms, at: nat)
    ensures Inside(ArmsBreaks(arms, at), at, at + ArmsSize(arms))
    decreases arms
  {
    hide BlockBreaks, BlockSize, ExprSize;
    match arms
    case Else(b) => BlockBreaksInside(b, at);
    case Arm(c, b, rest) =>
      var body, next := at + ExprSize(c) + 4, at + ExprSize(c) + BlockSize(b) + 8;
      BlockBreaksInside(b, body);
      ArmsBreaksInside(rest, next);
      assert Inside(BlockBreaks(b, body), at, next);
      InsideConcat(BlockBreaks(b, body), ArmsBreaks(rest, next), at, next, at + ArmsSize(arms));
  }

  /** Patching the breaks of a piece of code gives the code with its exit known. */
  ghost predicate PatchesTo(pre: seq<Byte>, unknown: seq<Byte>, known: seq<Byte>, post: seq<Byte>, sites: seq<nat>, target: nat) {
    && InRange(pre + unknown + post, sites, target)
    && PatchedAll(pre + unknown + post, sites, target) == pre + known + post
  }

  lemma InsideIsInRange(pre: seq<Byte>, code: seq<Byte>, post: seq<Byte>, sites: seq<nat>, target: nat)
    requires Inside(sites, |pre|, |pre| + |code|) && |pre| + |code| <= target
    ensures InRange(pre + code + post, sites, target)
  {
  }

  lemma PatchConcat(pre: seq<Byte>, u1: seq<Byte>, k1: seq<Byte>, u2: seq<Byte>, k2: seq<Byte>, post: seq<Byte>,
                    s1: seq<nat>, s2: seq<nat>, target: nat)
    requires |u1| == |k1| && |u2| == |k2|
    requires InRange(pre + u1 + u2 + post, s1 + s2, target)
    requires PatchesTo(pre, u1, k1, u2 + post, s1, target)
    requires PatchesTo(pre + k1, u2, k2, post, s2, target)
    ensures PatchesTo(pre, u1 + u2, k1 + k2, post, s1 + s2, target)
  {
    assert pre + (u1 + u2) + post == pre + u1 + u2 + post == pre + u1 + (u2 + post);
    assert pre + k1 + (u2 + post) == pre + k1 + u2 + post;
    assert pre + (k1 + k2) + post == pre + k1 + k2 + post;
    PatchedAllSplit(pre + u1 + u2 + post, s1, s2, target);
  }

  /** Code without breaks in front of and behind the patched part. */
  lemma PatchAround(pre: seq<Byte>, a: seq<Byte>, u: seq<Byte>, k: seq<Byte>, b: seq<Byte>, post: seq<Byte>,
                    sites: seq<nat>, target: nat)
    requires PatchesTo(pre + a, u, k, b + post, sites, target)
    ensures PatchesTo(pre, a + u + b, a + k + b, post, sites, target)
  {
    assert pre + (a + u + b) + post == pre + a + u + (b + post);
    assert pre + (a + k + b) + post == pre + a + k + (b + post);
  }

  lemma {:induction false} PatchBlock(b: Block, pre: seq<Byte>, post: seq<Byte>, k: nat, start: nat, target: nat)
    requires |pre| + BlockSize(b) <= target
    ensures PatchesTo(pre, BlockCode(b, |pre|, k, start, Unknown), BlockCode(b, |pre|, k, start, Address(target)), post,
                      BlockBreaks(b, |pre|), target)
    decreases b
  {
    hide StmtCode, StmtBreaks, StmtSize, StmtConstants, PatchesTo, InRange;
    if b.BNil? {
      PatchNothing(pre, [], post, target);
    } else {
      var at, mid, k' := |pre|, |pre| + StmtSize(b.head), k + |StmtConstants(b.head)|;
      var u1, k1 := StmtCode(b.head, at, k, start, Unknown), StmtCode(b.head, at, k, start, Address(target));
      var u2, k2 := BlockCode(b.tail, mid, k', start, Unknown), BlockCode(b.tail, mid, k', start, Address(target));
      BlockBreaksInside(b, at);
      InsideIsInRange(pre, u1 + u2, post, BlockBreaks(b, at), target);
      Assoc(pre, u1, u2);
      PatchStmt(b.head, pre, u2 + post, k, start, target);
      PatchBlock(b.tail, pre + k1, post, k', start, target);
      PatchConcat(pre, u1, k1, u2, k2, post, StmtBreaks(b.head, at), BlockBreaks(b.tail, mid), target);
    }
  }

  lemma PatchNothing(pre: seq<Byte>, code: seq<Byte>, post: seq<Byte>, target: nat)
    ensures PatchesTo(pre, code, code, post, [], target)
  {
  }

  lemma {:induction false} PatchStmt(s: Stmt, pre: seq<Byte>, post: seq<Byte>, k: nat, start: nat, target: nat)
    requires |pre| + StmtSize(s) <= target
    ensures PatchesTo(pre, StmtCode(s, |pre|, k, start, Unknown), StmtCode(s, |pre|, k, start, Address(target)), post,
                      StmtBreaks(s, |pre|), target)
    decreases s
  {
    hide ArmsCode, ArmsBreaks, ArmsSize, BlockCode, BlockSize, ExprCode, ExprSize, Encode, PatchesTo;
    match s
    case If(arms) => PatchArms(arms, pre, post, k, start, target);
    case Break => PatchBreak(pre, post, target);
    case _ => PatchNothing(pre, StmtCode(s, |pre|, k, start, Unknown), post, target);
  }

  lemma PatchBreak(pre: seq<Byte>, post: seq<Byte>, target: nat)
    requires |pre| + 3 <= target
    ensures PatchesTo(pre, Encode(Jump(BreakOffset(|pre|, Unknown))), Encode(Jump(BreakOffset(|pre|, Address(target)))),
                      post, [|pre| + 1], target)
  {
    hide Encode, Patched;
    PatchTo(pre, Jump(0), post, target);
    var code := pre + Encode(Jump(0xFFFF)) + post;
    assert [|pre| + 1][1..] == [];
    assert PatchedAll(Patched(code, |pre| + 1, target), [], target) == Patched(code, |pre| + 1, target);
  }

  lemma {:induction false} PatchArms(arms: Arms, pre: seq<Byte>, post: seq<Byte>, k: nat, start: nat, target: nat)
    requires |pre| + ArmsSize(arms) <= target
    ensures PatchesTo(pre, ArmsCode(arms, |pre|, k, start, Unknown), ArmsCode(arms, |pre|, k, start, Address(target)), post,
                      ArmsBreaks(arms, |pre|), target)
    decreases arms
  {
    hide BlockCode, BlockBreaks, BlockSize, BlockConstants, ExprCode, ExprSize, ExprConstants, Encode, PatchesTo, InRange,
         ArmsCode;
    if arms.Else? {
      ElseCode(arms, |pre|, k, start, Unknown);
      ElseCode(arms, |pre|, k, start, Address(target));
      PatchBlock(arms.body, pre, post, k, start, target);
    } else {
      PatchArm(arms, pre, post, k, start, target);
    }
  }

  lemma ElseCode(arms: Arms, at: nat, k: nat, start: nat, exit: Target)
    requires arms.Else?
    ensures ArmsCode(arms, at, k, start, exit) == BlockCode(arms.body, at, k, start, exit)
    ensures ArmsBreaks(arms, at) == BlockBreaks(arms.body, at)
    ensures ArmsSize(arms) == BlockSize(arms.body)
  {
  }

  lemma {:induction false} PatchArm(arms: Arms, pre: seq<Byte>, post: seq<Byte>, k: nat, start: nat, target: nat)
    requires arms.Arm? && |pre| + ArmsSize(arms) <= target
    ensures PatchesTo(pre, ArmsCode(arms, |pre|, k, start, Unknown), ArmsCode(arms, |pre|, k, start, Address(target)), post,
                      ArmsBreaks(arms, |pre|), target)
    decreases arms, 0
  {
    hide BlockCode, BlockBreaks, BlockSize, BlockConstants, ExprCode, ExprSize, ExprConstants, Encode, PatchesTo, InRange,
         ArmsCode;
    var Arm(c, b, rest) := arms;
    var at, body, k' := |pre|, |pre| + ExprSize(c) + 4, k + |ExprConstants(c)|;
    var next, k'' := body + BlockSize(b) + 4, k' + |BlockConstants(b)|;
    var head := ExprCode(c, k) + Encode(JumpIfFalse(BlockSize(b) + 4)) + Encode(Pop);
    var gap := Encode(Jump(1 + ArmsSize(rest))) + Encode(Pop);
    var ub, kb := BlockCode(b, body, k', start, Unknown), BlockCode(b, body, k', start, Address(target));
    var ur, kr := ArmsCode(rest, next, k'', start, Unknown), ArmsCode(rest, next, k'', start, Address(target));
    CodeOfArm(arms, at, k, start, Unknown);
    CodeOfArm(arms, at, k, start, Address(target));
    Assoc(head + ub, Encode(Jump(1 + ArmsSize(rest))), Encode(Pop));
    Assoc(head + kb, Encode(Jump(1 + ArmsSize(rest))), Encode(Pop));
    ArmsBreaksInside(arms, at);
    InsideIsInRange(pre, head + ub + gap + ur, post, ArmsBreaks(arms, at), target);
    Assoc(pre, head + ub + gap, ur);
    PatchBlock(b, pre + head, gap + (ur + post), k', start, target);
    PatchAround(pre, head, ub, kb, gap, ur + post, BlockBreaks(b, body), target);
    PatchArms(rest, pre + (head + kb + gap), post, k'', start, target);
    PatchConcat(pre, head + ub + gap, head + kb + gap, ur, kr, post, BlockBreaks(b, body), ArmsBreaks(rest, next), target);
  }

  // ---- Which breaks reach their exit ----

  ghost predicate AllReach(sites: seq<nat>, target: nat) {
    forall i :: 0 <= i < |sites| ==> target - sites[i] - 2 <= MAX_JUMP
  }

  lemma AllReachConcat(a: seq<nat>, b: seq<nat>, target: nat)
    ensures AllReach(a + b, target) <==> AllReach(a, target) && AllReach(b, target)
  {
    if AllReach(a + b, target) {
      assert forall i :: 0 <= i < |a| ==> a[i] == (a + b)[i];
      assert forall i :: 0 <= i < |b| ==> b[i] == (a + b)[|a| + i];
    }
  }

  lemma {:induction false} BlockReaches(b: Block, at: nat, start: nat, target: nat)
    requires at + BlockSize(b) <= target
    ensures BlockFits(b, at, start, Address(target)) <==>
            BlockFits(b, at, start, Unknown) && AllReach(BlockBreaks(b, at), target)
    decreases b
  {
    hide StmtFits, StmtBreaks, StmtSize, AllReach;
    if b.BCons? {
      var mid := at + StmtSize(b.head);
      StmtReaches(b.head, at, start, target);
      BlockReaches(b.tail, mid, start, target);
      AllReachConcat(StmtBreaks(b.head, at), BlockBreaks(b.tail, mid), target);
    } else {
      NothingReaches(target);
    }
  }

  lemma NothingReaches(target: nat)
    ensures AllReach([], target)
  {
  }

  lemma BreakReaches(at: nat, target: nat)
    requires at + 3 <= target
    ensures AllReach([at + 1], target) <==> BreakOffset(at, Address(target)) <= MAX_JUMP
  {
    if AllReach([at + 1], target) { assert [at + 1][0] == at + 1; }
  }

  lemma {:induction false} StmtReaches(s: Stmt, at: nat, start: nat, target: nat)
    requires at + StmtSize(s) <= target
    ensures StmtFits(s, at, start, Address(target)) <==>
            StmtFits(s, at, start, Unknown) && AllReach(StmtBreaks(s, at), target)
    decreases s
  {
    hide ExprFits, ExprSize, BlockSize, LoopBodyFits, ArmsFits, ArmsBreaks, ArmsSize, AllReach, NextOffset;
    match s
    case If(arms) => ArmsReach(arms, at, start, target);
    case Break => BreakReaches(at, target);
    case _ => NothingReaches(target);
  }

  lemma {:induction false} ArmsReach(arms: Arms, at: nat, start: nat, target: nat)
    requires at + ArmsSize(arms) <= target
    ensures ArmsFits(arms, at, start, Address(target)) <==>
            ArmsFits(arms, at, start, Unknown) && AllReach(ArmsBreaks(arms, at), target)
    decreases arms
  {
    hide BlockFits, BlockBreaks, BlockSize, ExprSize, ExprFits, AllReach;
    match arms
    case Else(b) => BlockReaches(b, at, start, target);
    case Arm(c, b, rest) =>
      var body, next := at + ExprSize(c) + 4, at + ExprSize(c) + BlockSize(b) + 8;
      BlockReaches(b, body, start, target);
      ArmsReach(rest, next, start, target);
      AllReachConcat(BlockBreaks(b, body), ArmsBreaks(rest, next), target);
  }

  // Composition of statements from their parts, on values only.

  lemma NoBreaksAdded(l: LoopState)
    ensures AddBreaks(l, []) == l
  {
    if l.InLoop? { assert l.breaks + [] == l.breaks; }
  }

  lemma BreaksAddedTwice(l: LoopState, a: seq<nat>, b: seq<nat>)
    ensures AddBreaks(AddBreaks(l, a), b) == AddBreaks(l, a + b)
    ensures LoopStart(AddBreaks(l, a)) == LoopStart(l)
    ensures RoomForBreaks(l, a + b) <==> RoomForBreaks(l, a) && RoomForBreaks(AddBreaks(l, a), b)
  {
    if l.InLoop? { Assoc(l.breaks, a, b); }
  }

  lemma ExprStmtDone(before: Emitter, r: Parsing.Parsed<Expr>, after: Emitter, failed: bool)
    requires RoomForBreaks(before.loop, [])
    requires ExprDone(before, r, after, failed)
    ensures r.Bad? ==> failed
    ensures r.Parsed? ==>
              if failed then !StmtOk(ExprStmt(r.value), before)
              else StmtOk(ExprStmt(r.value), before) &&
                   StmtEmitted(before, ExprStmt(r.value), r.rest) == after.(code := after.code + Encode(Pop))
  {
    hide ExprCode, ExprConstants, ExprFits, Encode, AddBreaks;
    NoBreaksAdded(before.loop);
    if r.Parsed? {
      Assoc(before.code, ExprCode(r.value, |before.constants|), Encode(Pop));
    }
  }

  lemma BreakDone(before: Emitter, rest: seq<Token>)
    requires before.loop.InLoop?
    ensures StmtOk(Break, before) <==>
              |before.constants| <= MAX_CONSTANTS && |before.loop.breaks| < MAX_BREAKS
    ensures StmtEmitted(before, Break, rest) ==
            Emitter(rest, before.code + Encode(Jump(0xFFFF)), before.constants,
                    InLoop(before.loop.start, before.loop.breaks + [|before.code| + 1]))
  {
    hide Encode;
    assert before.constants + [] == before.constants;
  }

  lemma NextDone(before: Emitter, rest: seq<Token>)
    requires before.loop.InLoop? && before.loop.start <= |before.code| && RoomForBreaks(before.loop, [])
    ensures StmtOk(Next, before) <==>
              |before.constants| <= MAX_CONSTANTS && |before.code| + 3 - before.loop.start <= MAX_JUMP
    ensures StmtEmitted(before, Next, rest) ==
            Emitter(rest, before.code + Encode(LoopBack(|before.code| + 3 - before.loop.start)), before.constants, before.loop)
  {
    hide Encode;
    NoBreaksAdded(before.loop);
    assert before.constants + [] == before.constants;
  }

  lemma EmptyBlockEmitted(before: Emitter, rest: seq<Token>)
    requires |before.constants| <= MAX_CONSTANTS && RoomForBreaks(before.loop, [])
    ensures BlockOk(BNil, before) && BlockEmitted(before, BNil, rest) == before.(rest := rest)
  {
    NoBreaksAdded(before.loop);
    assert before.constants + [] == before.constants && before.code + [] == before.code;
  }

  lemma BlockConsEmitted(before: Emitter, s: Stmt, b: Block, ts: seq<Token>, rest: seq<Token>)
    ensures BlockOk(BCons(s, b), before) <==> StmtOk(s, before) && BlockOk(b, StmtEmitted(before, s, ts))
    ensures BlockEmitted(before, BCons(s, b), rest) == BlockEmitted(StmtEmitted(before, s, ts), b, rest)
  {
    hide StmtCode, StmtConstants, StmtFits, StmtBreaks, StmtSize, AddBreaks, RoomForBreaks, LoopStart;
    var at, k, start := |before.code|, |before.constants|, LoopStart(before.loop);
    var mid, k' := at + StmtSize(s), k + |StmtConstants(s)|;
    BreaksAddedTwice(before.loop, StmtBreaks(s, at), BlockBreaks(b, mid));
    Assoc(before.code, StmtCode(s, at, k, start, Unknown), BlockCode(b, mid, k', start, Unknown));
    Assoc(before.constants, StmtConstants(s), BlockConstants(b));
  }

  function Append(a: Block, b: Block): Block {
    match a
    case BNil => b
    case BCons(s, a) => BCons(s, Append(a, b))
  }

  lemma {:induction false} AppendAssociates(a: Block, s: Stmt, b: Block)
    ensures Append(Append(a, BCons(s, BNil)), b) == Append(a, BCons(s, b))
    decreases a
  {
    if a.BCons? { AppendAssociates(a.tail, s, b); }
  }

  /** Emitting two blocks one after the other is emitting their concatenation. */
  lemma {:induction false} AppendEmitted(before: Emitter, a: Block, b: Block, ts: seq<Token>, rest: seq<Token>)
    requires |before.constants| <= MAX_CONSTANTS && RoomForBreaks(before.loop, [])
    ensures BlockOk(Append(a, b), before) <==> BlockOk(a, before) && BlockOk(b, BlockEmitted(before, a, ts))
    ensures BlockEmitted(before, Append(a, b), rest) == BlockEmitted(BlockEmitted(before, a, ts), b, rest)
    decreases a
  {
    hide BlockOk, BlockEmitted, StmtEmitted, AddBreaks, StmtOk, RoomForBreaks;
    if a.BNil? {
      EmptyBlockEmitted(before, ts);
      RestIrrelevant(before, b, ts, rest);
    } else {
      BlockConsEmitted(before, a.head, a.tail, ts, ts);
      BlockConsEmitted(before, a.head, Append(a.tail, b), ts, rest);
      if StmtOk(a.head, before) {
        StmtOkKeepsRoom(before, a.head, ts);
        AppendEmitted(StmtEmitted(before, a.head, ts), a.tail, b, ts, rest);
      } else {
        AppendEmittedAnyway(before, a, b, ts, rest);
      }
    }
  }

  lemma RestIrrelevant(before: Emitter, b: Block, ts: seq<Token>, rest: seq<Token>)
    ensures BlockOk(b, before) <==> BlockOk(b, before.(rest := ts))
    ensures BlockEmitted(before, b, rest) == BlockEmitted(before.(rest := ts), b, rest)
  {
  }

  lemma StmtOkKeepsRoom(before: Emitter, s: Stmt, ts: seq<Token>)
    requires StmtOk(s, before)
    ensures |StmtEmitted(before, s, ts).constants| <= MAX_CONSTANTS
    ensures RoomForBreaks(StmtEmitted(before, s, ts).loop, [])
  {
    hide StmtFits, StmtCode, StmtConstants, StmtBreaks;
  }

  /** What two blocks emit does not depend on the limits. */
  lemma {:induction false} AppendEmittedAnyway(before: Emitter, a: Block, b: Block, ts: seq<Token>, rest: seq<Token>)
    ensures BlockEmitted(before, Append(a, b), rest) == BlockEmitted(BlockEmitted(before, a, ts), b, rest)
    decreases a
  {
    hide BlockOk, StmtEmitted, StmtOk;
    if a.BNil? {
      NoBreaksAdded(before.loop);
      assert before.constants + [] == before.constants && before.code + [] == before.code;
      assert BlockEmitted(before, a, ts) == before.(rest := ts);
    } else {
      hide BlockEmitted;
      BlockConsEmitted(before, a.head, a.tail, ts, ts);
      BlockConsEmitted(before, a.head, Append(a.tail, b), ts, rest);
      AppendEmittedAnyway(StmtEmitted(before, a.head, ts), a.tail, b, ts, rest);
    }
  }

  // ---- The code of loops ----

  /** A conditional loop: `head` computes the condition, the body is left to the end of the code. */
  function GuardedCode(pre: nat, head: seq<Byte>, b: Block, k: nat): (code: seq<Byte>)
    ensures |code| == |head| + BlockSize(b) + 8
  {
    head + Encode(JumpIfFalse(BlockSize(b) + 4)) + Encode(Pop) +
    BlockCode(b, pre + |head| + 4, k, pre, Address(pre + |head| + BlockSize(b) + 8)) +
    Encode(LoopBack(|head| + BlockSize(b) + 7)) + Encode(Pop)
  }

  lemma WhileIsGuarded(s: Stmt, at: nat, k: nat, start: nat, exit: Target)
    requires s.While?
    ensures StmtCode(s, at, k, start, exit) ==
            GuardedCode(at, ExprCode(s.cond, k), s.body, k + |ExprConstants(s.cond)|)
  {
    hide Encode, ExprCode, ExprConstants, BlockCode, BlockSize, ExprSize;
  }

  lemma UntilIsGuarded(s: Stmt, at: nat, k: nat, start: nat, exit: Target)
    requires s.Until?
    ensures StmtCode(s, at, k, start, exit) ==
            GuardedCode(at, ExprCode(s.cond, k) + Encode(OpNot), s.body, k + |ExprConstants(s.cond)|)
  {
    hide Encode, ExprCode, ExprConstants, BlockCode, BlockSize, ExprSize;
  }

  /** Patching the exit of a conditional loop, popping the condition there and patching the breaks. */
  lemma GuardedLoopPatched(pre: seq<Byte>, head: seq<Byte>, b: Block, k: nat)
    ensures var start := |pre|;
            var body := start + |head| + 4;
            var code := pre + head + Encode(JumpIfFalse(0xFFFF)) + Encode(Pop) + BlockCode(b, body, k, start, Unknown) +
                        Encode(LoopBack(|head| + BlockSize(b) + 7));
            && start + |head| + 3 <= |code|
            && var patched := Patched(code, start + |head| + 1, |code|) + Encode(Pop);
            && InRange(patched, BlockBreaks(b, body), |patched|)
            && PatchedAll(patched, BlockBreaks(b, body), |patched|) == pre + GuardedCode(start, head, b, k)
  {
    hide Encode, BlockCode, BlockSize, BlockBreaks, Patched, PatchedAll, InRange;
    var start, body := |pre|, |pre| + |head| + 4;
    var unknown, back := BlockCode(b, body, k, start, Unknown), Encode(LoopBack(|head| + BlockSize(b) + 7));
    var exit := start + |head| + BlockSize(b) + 8;
    var known := BlockCode(b, body, k, start, Address(exit));
    var code := pre + head + Encode(JumpIfFalse(0xFFFF)) + Encode(Pop) + unknown + back;
    Assoc(pre + head + Encode(JumpIfFalse(0xFFFF)) + Encode(Pop), unknown, back);
    PatchOver(code, pre + head, JumpIfFalse(0), Encode(Pop), unknown + back);
    var front := pre + head + Encode(JumpIfFalse(BlockSize(b) + 4)) + Encode(Pop);
    Assoc(front, unknown, back);
    Assoc(front + unknown, back, Encode(Pop));
    PatchBlock(b, front, back + Encode(Pop), k, start, exit);
    Assoc(front + known, back, Encode(Pop));
    Regroup7(pre, head, Encode(JumpIfFalse(BlockSize(b) + 4)), Encode(Pop), known, back, Encode(Pop));
  }

  lemma Regroup7<T>(a: seq<T>, b: seq<T>, c: seq<T>, d: seq<T>, e: seq<T>, f: seq<T>, g: seq<T>)
    ensures a + b + c + d + e + f + g == a + (b + c + d + e + f + g)
  {
  }

  /** Patching the breaks of an endless loop. */
  lemma EndlessLoopPatched(pre: seq<Byte>, b: Block, k: nat, outer: nat, exit: Target)
    ensures var start := |pre|;
            var code := pre + BlockCode(b, start, k, start, Unknown) + Encode(LoopBack(BlockSize(b) + 3));
            && InRange(code, BlockBreaks(b, start), |code|)
            && PatchedAll(code, BlockBreaks(b, start), |code|) == pre + StmtCode(Loop(b), start, k, outer, exit)
  {
    hide Encode, BlockCode, BlockSize, BlockBreaks, PatchedAll, InRange;
    var start, back := |pre|, Encode(LoopBack(BlockSize(b) + 3));
    PatchBlock(b, pre, back, k, start, start + BlockSize(b) + 3);
    Assoc(pre, BlockCode(b, start, k, start, Address(start + BlockSize(b) + 3)), back);
  }

  /** The state in which the body of a loop is compiled. */
  function BodyStart(before: Emitter, ts: seq<Token>, code: seq<Byte>, constants: seq<Value>): Emitter {
    Emitter(ts, before.code + code, before.constants + constants, InLoop(|before.code|, []))
  }

  /** A loop body compiles within the limits, and its breaks reach `exit`. */
  ghost predicate BodyOk(b: Block, body: Emitter, exit: nat) {
    BlockOk(b, body) && AllReach(BlockBreaks(b, |body.code|), exit)
  }

  lemma BodyFits(b: Block, body: Emitter, exit: nat)
    requires body.loop.InLoop? && body.loop.breaks == []
    requires |body.code| + BlockSize(b) <= exit
    ensures BodyOk(b, body, exit) <==>
            && LoopBodyFits(b, |body.code|, body.loop.start, exit)
            && |body.constants| + |BlockConstants(b)| <= MAX_CONSTANTS
  {
    hide BlockFits, BlockConstants, BlockBreaks, AllReach, BlockSize;
    BlockReaches(b, |body.code|, body.loop.start, exit);
  }

  lemma WhileDone(before: Emitter, c: Expr, b: Block, ts: seq<Token>, body: Emitter, rest: seq<Token>)
    requires RoomForBreaks(before.loop, [])
    requires body == BodyStart(before, ts, ExprCode(c, |before.constants|) + Encode(JumpIfFalse(0xFFFF)) + Encode(Pop),
                               ExprConstants(c))
    ensures StmtOk(While(c, b), before) <==>
            && ExprOk(c, |before.constants|) && ExprSize(c) + BlockSize(b) + 7 <= MAX_JUMP
            && BodyOk(b, body, |before.code| + ExprSize(c) + BlockSize(b) + 8)
    ensures StmtEmitted(before, While(c, b), rest) ==
            Emitter(rest, before.code + GuardedCode(|before.code|, ExprCode(c, |before.constants|), b, |body.constants|),
                    body.constants + BlockConstants(b), before.loop)
  {
    hide Encode, ExprCode, ExprConstants, ExprFits, ExprSize, BlockCode, BlockConstants, BlockSize, BlockBreaks,
         LoopBodyFits, BodyOk, GuardedCode, StmtCode, AddBreaks;
    var k, s := |before.constants|, While(c, b);
    NoBreaksAdded(before.loop);
    WhileIsGuarded(s, |before.code|, k, LoopStart(before.loop), Unknown);
    BodyFits(b, body, |before.code| + ExprSize(c) + BlockSize(b) + 8);
    Assoc(before.constants, ExprConstants(c), BlockConstants(b));
  }

  lemma UntilDone(before: Emitter, c: Expr, b: Block, ts: seq<Token>, body: Emitter, rest: seq<Token>)
    requires RoomForBreaks(before.loop, [])
    requires body == BodyStart(before, ts, ExprCode(c, |before.constants|) + Encode(OpNot) + Encode(JumpIfFalse(0xFFFF)) +
                                           Encode(Pop), ExprConstants(c))
    ensures StmtOk(Until(c, b), before) <==>
            && ExprOk(c, |before.constants|) && ExprSize(c) + BlockSize(b) + 8 <= MAX_JUMP
            && BodyOk(b, body, |before.code| + ExprSize(c) + BlockSize(b) + 9)
    ensures StmtEmitted(before, Until(c, b), rest) ==
            Emitter(rest, before.code +
                          GuardedCode(|before.code|, ExprCode(c, |before.constants|) + Encode(OpNot), b, |body.constants|),
                    body.constants + BlockConstants(b), before.loop)
  {
    hide Encode, ExprCode, ExprConstants, ExprFits, ExprSize, BlockCode, BlockConstants, BlockSize, BlockBreaks,
         LoopBodyFits, BodyOk, GuardedCode, StmtCode, AddBreaks;
    var k, s := |before.constants|, Until(c, b);
    NoBreaksAdded(before.loop);
    UntilIsGuarded(s, |before.code|, k, LoopStart(before.loop), Unknown);
    BodyFits(b, body, |before.code| + ExprSize(c) + BlockSize(b) + 9);
    Assoc(before.constants, ExprConstants(c), BlockConstants(b));
  }

  lemma LoopDone(before: Emitter, b: Block, ts: seq<Token>, body: Emitter, rest: seq<Token>)
    requires RoomForBreaks(before.loop, [])
    requires body == Emitter(ts, before.code, before.constants, InLoop(|before.code|, []))
    ensures StmtOk(Loop(b), before) <==>
            BlockSize(b) + 3 <= MAX_JUMP && BodyOk(b, body, |before.code| + BlockSize(b) + 3)
    ensures StmtEmitted(before, Loop(b), rest) ==
            Emitter(rest, before.code + StmtCode(Loop(b), |before.code|, |before.constants|, LoopStart(before.loop), Unknown),
                    before.constants + BlockConstants(b), before.loop)
  {
    hide Encode, BlockCode, BlockConstants, BlockSize, BlockBreaks, LoopBodyFits, BodyOk, StmtCode, AddBreaks;
    NoBreaksAdded(before.loop);
    BodyFits(b, body, |before.code| + BlockSize(b) + 3);
  }

  // ---- The code of a conditional ----

  /** The state in which the block of an arm is compiled. */
  function ArmStart(before: Emitter, c: Expr, ts: seq<Token>): Emitter {
    Emitter(ts, before.code + ExprCode(c, |before.constants|) + Encode(JumpIfFalse(0xFFFF)) + Encode(Pop),
            before.constants + ExprConstants(c), before.loop)
  }

  /** The state after an arm, with the jump over it patched and the jump out of it still open. */
  function ArmEnd(before: Emitter, c: Expr, b: Block, ts: seq<Token>): (end: Emitter)
    ensures end.rest == ts
  {
    var k, start, body := |before.constants|, LoopStart(before.loop), |before.code| + ExprSize(c) + 4;
    Emitter(ts, before.code + ExprCode(c, k) + Encode(JumpIfFalse(BlockSize(b) + 4)) + Encode(Pop) +
                BlockCode(b, body, k + |ExprConstants(c)|, start, Unknown) + Encode(Jump(0xFFFF)) + Encode(Pop),
            before.constants + ExprConstants(c) + BlockConstants(b), AddBreaks(before.loop, BlockBreaks(b, body)))
  }

  /** Patching the jump over an arm that has just been compiled. */
  lemma ArmSkipPatched(before: Emitter, c: Expr, b: Block, ts: seq<Token>, rest: seq<Token>)
    ensures var code := BlockEmitted(ArmStart(before, c, ts), b, rest).code + Encode(Jump(0xFFFF));
            var jump := |before.code| + ExprSize(c) + 1;
            && jump + 2 <= |code| && |code| - jump - 2 == BlockSize(b) + 4
            && ArmEnd(before, c, b, rest) ==
               BlockEmitted(ArmStart(before, c, ts), b, rest).(code := Patched(code, jump, |code|) + Encode(Pop))
  {
    hide Encode, ExprCode, ExprConstants, ExprSize, BlockCode, BlockConstants, BlockSize, BlockBreaks, Patched, AddBreaks;
    var k, body := |before.constants|, |before.code| + ExprSize(c) + 4;
    var pre := before.code + ExprCode(c, k);
    var block := BlockCode(b, body, k + |ExprConstants(c)|, LoopStart(before.loop), Unknown);
    Assoc(pre + Encode(JumpIfFalse(0xFFFF)) + Encode(Pop), block, Encode(Jump(0xFFFF)));
    PatchOver(pre + Encode(JumpIfFalse(0xFFFF)) + Encode(Pop) + block + Encode(Jump(0xFFFF)), pre, JumpIfFalse(0),
              Encode(Pop), block + Encode(Jump(0xFFFF)));
    Assoc(pre + Encode(JumpIfFalse(BlockSize(b) + 4)) + Encode(Pop), block, Encode(Jump(0xFFFF)));
  }

  /** Where the code and the constants after an arm start. */
  lemma ArmEndSizes(before: Emitter, c: Expr, b: Block, ts: seq<Token>)
    ensures |ArmStart(before, c, ts).code| == |before.code| + ExprSize(c) + 4
    ensures |ArmEnd(before, c, b, ts).code| == |before.code| + ExprSize(c) + BlockSize(b) + 8
    ensures |ArmEnd(before, c, b, ts).constants| == |before.constants| + |ExprConstants(c)| + |BlockConstants(b)|
  {
    hide ExprCode, ExprConstants, ExprSize, BlockCode, BlockConstants, BlockSize, BlockBreaks;
  }

  lemma ArmOk(before: Emitter, c: Expr, b: Block, tail: Arms, ts: seq<Token>)
    ensures ArmsOk(Arm(c, b, tail), before) <==>
            && ExprOk(c, |before.constants|) && BlockOk(b, ArmStart(before, c, ts)) && BlockSize(b) + 4 <= MAX_JUMP
            && ArmsOk(tail, ArmEnd(before, c, b, ts)) && 1 + ArmsSize(tail) <= MAX_JUMP
  {
    hide Encode, ExprCode, ExprConstants, ExprSize, ExprFits, BlockCode, BlockConstants, BlockSize, BlockFits, BlockBreaks,
         ArmsCode, AddBreaks, RoomForBreaks, LoopStart;
    var body, next := |before.code| + ExprSize(c) + 4, |before.code| + ExprSize(c) + BlockSize(b) + 8;
    ArmEndSizes(before, c, b, ts);
    BreaksAddedTwice(before.loop, BlockBreaks(b, body), ArmsBreaks(tail, next));
  }

  lemma ArmEmitted(before: Emitter, c: Expr, b: Block, tail: Arms, ts: seq<Token>, rest: seq<Token>)
    ensures var after := ArmsEmitted(ArmEnd(before, c, b, ts), tail, rest);
            var jump := |before.code| + ExprSize(c) + 4 + BlockSize(b) + 1;
            && jump + 2 <= |after.code| && |after.code| - jump - 2 == 1 + ArmsSize(tail)
            && ArmsEmitted(before, Arm(c, b, tail), rest) ==
               after.(code := Patched(after.code, jump, |after.code|))
  {
    hide Encode, ExprCode, ExprConstants, ExprSize, ExprFits, BlockCode, BlockConstants, BlockSize, BlockFits, BlockBreaks,
         ArmsCode, ArmsConstants, ArmsSize, ArmsBreaks, Patched, AddBreaks, RoomForBreaks, LoopStart;
    var k, start, at := |before.constants|, LoopStart(before.loop), |before.code|;
    var body, next := at + ExprSize(c) + 4, at + ExprSize(c) + BlockSize(b) + 8;
    var k' := k + |ExprConstants(c)| + |BlockConstants(b)|;
    var others := ArmsCode(tail, next, k', start, Unknown);
    ArmEndSizes(before, c, b, ts);
    ArmBreaks(c, b, tail, at);
    BreaksAddedTwice(before.loop, BlockBreaks(b, body), ArmsBreaks(tail, next));
    var end := ArmEnd(before, c, b, ts);
    assert ArmsEmitted(end, tail, rest).code == end.code + others;
    ArmCodePatched(before.code, c, b, tail, k, start);
    CodeOfArm(Arm(c, b, tail), at, k, start, Unknown);
    Regroup(before.constants, ExprConstants(c), BlockConstants(b), ArmsConstants(tail));
  }

  lemma ArmBreaks(c: Expr, b: Block, tail: Arms, at: nat)
    ensures ArmsBreaks(Arm(c, b, tail), at) ==
            BlockBreaks(b, at + ExprSize(c) + 4) + ArmsBreaks(tail, at + ExprSize(c) + BlockSize(b) + 8)
  {
    hide BlockBreaks, BlockSize, ExprSize;
  }

  lemma ArmCodePatched(start: seq<Byte>, c: Expr, b: Block, tail: Arms, k: nat, loop: nat)
    ensures var at := |start|;
            var body, k' := at + ExprSize(c) + 4, k + |ExprConstants(c)|;
            var code := start + ExprCode(c, k) + Encode(JumpIfFalse(BlockSize(b) + 4)) + Encode(Pop) +
                        BlockCode(b, body, k', loop, Unknown) + Encode(Jump(0xFFFF)) + Encode(Pop) +
                        ArmsCode(tail, body + BlockSize(b) + 4, k' + |BlockConstants(b)|, loop, Unknown);
            var jump := body + BlockSize(b) + 1;
            && jump + 2 <= |code| && |code| - jump - 2 == 1 + ArmsSize(tail)
            && Patched(code, jump, |code|) == start + ArmsCode(Arm(c, b, tail), at, k, loop, Unknown)
  {
    hide Encode, ExprCode, ExprConstants, ExprSize, BlockCode, BlockConstants, BlockSize, ArmsCode, ArmsSize, Patched;
    var at, body, k' := |start|, |start| + ExprSize(c) + 4, k + |ExprConstants(c)|;
    var block := BlockCode(b, body, k', loop, Unknown);
    var others := ArmsCode(tail, body + BlockSize(b) + 4, k' + |BlockConstants(b)|, loop, Unknown);
    var pre := start + ExprCode(c, k) + Encode(JumpIfFalse(BlockSize(b) + 4)) + Encode(Pop) + block;
    PatchOver(pre + Encode(Jump(0xFFFF)) + Encode(Pop) + others, pre, Jump(0), Encode(Pop), others);
    CodeOfArm(Arm(c, b, tail), at, k, loop, Unknown);
    Regroup8(start, ExprCode(c, k), Encode(JumpIfFalse(BlockSize(b) + 4)), Encode(Pop), block,
             Encode(Jump(1 + ArmsSize(tail))), Encode(Pop), others);
  }

  lemma Regroup8<T>(a: seq<T>, b: seq<T>, c: seq<T>, d: seq<T>, e: seq<T>, f: seq<T>, g: seq<T>, h: seq<T>)
    ensures a + b + c + d + e + f + g + h == a + (b + c + d + e + f + g + h)
  {
  }

  lemma ElseDone(before: Emitter, b: Block, rest: seq<Token>)
    ensures ArmsOk(Else(b), before) <==> BlockOk(b, before)
    ensures ArmsEmitted(before, Else(b), rest) == BlockEmitted(before, b, rest)
  {
    hide BlockFits, BlockCode, BlockConstants, BlockBreaks;
  }

  lemma IfDone(before: Emitter, arms: Arms, rest: seq<Token>)
    ensures StmtOk(If(arms), before) <==> ArmsOk(arms, before)
    ensures StmtEmitted(before, If(arms), rest) == ArmsEmitted(before, arms, rest)
  {
    hide ArmsFits, ArmsCode, ArmsConstants, ArmsBreaks;
  }

  // ---- Lemmas for the statement methods ----

  /** A conditional loop after its keyword. */
  function GuardedLoop(ts: seq<Token>, isWhile: bool): Parsing.Parsed<Stmt> {
    match Parsing.ParseExpression(Syntax.SkipNewlines(ts))
    case Bad => Parsing.Bad
    case Parsed(c, rest) =>
      match Parsing.ParseLoopBody(Syntax.SkipNewlines(rest))
      case Bad => Parsing.Bad
      case Parsed(b, rest) => Parsing.Parsed(if isWhile then While(c, b) else Until(c, b), rest)
  }

  /** The parse of the statements still to come, with those already compiled put in front. */
  function After(done: Block, r: Parsing.Parsed<Block>): Parsing.Parsed<Block> {
    match r
    case Bad => Parsing.Bad
    case Parsed(b, rest) => Parsing.Parsed(Append(done, b), rest)
  }

  lemma {:induction false} AppendNothing(done: Block)
    ensures Append(done, BNil) == done
    decreases done
  {
    if done.BCons? { AppendNothing(done.tail); }
  }

  lemma BlockOkKeepsRoom(before: Emitter, b: Block, ts: seq<Token>)
    requires BlockOk(b, before)
    ensures |BlockEmitted(before, b, ts).constants| <= MAX_CONSTANTS
    ensures RoomForBreaks(BlockEmitted(before, b, ts).loop, []) && RoomForBreaks(before.loop, [])
    ensures |before.constants| <= MAX_CONSTANTS
  {
    hide BlockFits, BlockCode, BlockConstants, BlockBreaks;
  }

  /** A statement in front of the parse of the statements after it. */
  function Before(s: Stmt, r: Parsing.Parsed<Block>): Parsing.Parsed<Block> {
    match r
    case Bad => Parsing.Bad
    case Parsed(b, rest) => Parsing.Parsed(BCons(s, b), rest)
  }

  /** What a statement emits does not depend on the tokens still to be read before it. */
  lemma StmtRest(before: Emitter, ts: seq<Token>, r: Parsing.Parsed<Stmt>, after: Emitter, failed: bool)
    requires StmtDone(before.(rest := ts), r, after, failed)
    ensures StmtDone(before, r, after, failed)
  {
    hide StmtFits, StmtCode, StmtConstants, StmtBreaks;
  }

  lemma ExprBefore(before: Emitter, ts: seq<Token>, r: Parsing.Parsed<Expr>, after: Emitter, failed: bool)
    requires ExprDone(before.(rest := ts), r, after, failed)
    ensures ExprDone(before, r, after, failed)
  {
    hide ExprCode, ExprConstants, ExprFits;
  }

  lemma ExprRest(before: Emitter, e: Expr, ts: seq<Token>, after: seq<Token>, rest: seq<Token>)
    ensures ExprEmitted(before, e, rest) == ExprEmitted(before.(rest := ts), e, after).(rest := rest)
  {
    hide ExprCode, ExprConstants;
  }

  lemma EmittedRest(before: Emitter, b: Block, ts: seq<Token>, rest: seq<Token>)
    ensures BlockEmitted(before, b, rest) == BlockEmitted(before, b, ts).(rest := rest)
  {
    hide BlockFits, BlockCode, BlockConstants, BlockBreaks;
  }

  lemma GuardedLoopParses(ts: seq<Token>, inLoop: bool)
    requires StartsWith(ts, TWhile) || StartsWith(ts, TUntil)
    ensures Parsing.ParseStatement(ts, inLoop) == GuardedLoop(ts[1..], ts[0] == TWhile)
  {
    hide Parsing.ParseExpression, Parsing.ParseLoopBody;
  }

  lemma BlockParses(ts: seq<Token>, inLoop: bool, inArm: bool)
    requires !Parsing.EndsBlock(ts, inArm)
    ensures var r := Parsing.ParseStatement(ts, inLoop);
            Parsing.ParseBlock(ts, inLoop, inArm) ==
            if r.Bad? then Parsing.Bad
            else Before(r.value, Parsing.ParseBlock(Syntax.SkipNewlines(r.rest), inLoop, inArm))
  {
    hide Parsing.ParseStatement;
  }

  lemma BlockEnds(ts: seq<Token>, inLoop: bool, inArm: bool)
    requires Parsing.EndsBlock(ts, inArm)
    ensures Parsing.ParseBlock(ts, inLoop, inArm) == Parsing.Parsed(BNil, ts)
  {
  }

  lemma ScriptSkips(ts: seq<Token>)
    ensures Parsing.ParseScript(ts) == Parsing.ParseScript(Syntax.SkipNewlines(ts))
  {
    hide Parsing.ParseStatement;
  }

  lemma ScriptParses(ts: seq<Token>)
    requires ts != [] && ts[0] != TNewline
    ensures var r := Parsing.ParseStatement(ts, false);
            Parsing.ParseScript(ts) ==
            if r.Bad? then Parsing.Bad else Before(r.value, Parsing.ParseScript(r.rest))
  {
    hide Parsing.ParseStatement;
  }

  /** One more statement compiled after the block `done`. */
  lemma AppendDone(before: Emitter, done: Block, s: Stmt, ts: seq<Token>, after: seq<Token>, rest: seq<Token>,
                   tail: Parsing.Parsed<Block>)
    requires BlockOk(done, before) && StmtOk(s, BlockEmitted(before, done, ts))
    ensures BlockOk(Append(done, BCons(s, BNil)), before)
    ensures BlockEmitted(before, Append(done, BCons(s, BNil)), rest) ==
            StmtEmitted(BlockEmitted(before, done, ts), s, after).(rest := rest)
    ensures After(done, Before(s, tail)) == After(Append(done, BCons(s, BNil)), tail)
  {
    hide BlockOk, StmtOk, BlockEmitted, StmtEmitted, RoomForBreaks;
    var mid := BlockEmitted(before, done, ts);
    BlockOkKeepsRoom(before, done, ts);
    AppendEmitted(before, done, BCons(s, BNil), ts, rest);
    BlockConsEmitted(mid, s, BNil, after, rest);
    StmtOkKeepsRoom(mid, s, after);
    EmptyBlockEmitted(StmtEmitted(mid, s, after), rest);
    if tail.Parsed? { AppendAssociates(done, s, tail.value); }
  }

  lemma BrokenBlock(before: Emitter, done: Block, s: Stmt, ts: seq<Token>, r: Parsing.Parsed<Block>)
    requires BlockOk(done, before) && !StmtOk(s, BlockEmitted(before, done, ts))
    requires r.Parsed? && r.value.BCons? && r.value.head == s
    ensures !BlockOk(After(done, r).value, before)
  {
    hide BlockOk, StmtOk, BlockEmitted, StmtEmitted, RoomForBreaks;
    var mid := BlockEmitted(before, done, ts);
    BlockOkKeepsRoom(before, done, ts);
    AppendEmitted(before, done, r.value, ts, ts);
    BlockConsEmitted(mid, s, r.value.tail, ts, ts);
  }

  lemma BrokenCondition(before: Emitter, c: Expr, s: Stmt)
    requires !ExprOk(c, |before.constants|) && (s.While? || s.Until?) && s.cond == c
    ensures !StmtOk(s, before)
  {
    hide ExprFits, ExprConstants, BlockConstants, LoopBodyFits, BlockSize, ExprSize;
    assert |StmtConstants(s)| >= |ExprConstants(c)|;
  }

  lemma BrokenArmCondition(before: Emitter, arms: Arms)
    requires arms.Arm? && !ExprOk(arms.cond, |before.constants|)
    ensures !ArmsOk(arms, before)
  {
    hide ExprOk, ArmsOk, BlockOk, ArmStart, ArmEnd, BlockSize, ArmsSize;
    ArmOk(before, arms.cond, arms.body, arms.rest, []);
  }

  lemma BrokenArmBlock(before: Emitter, arms: Arms, ts: seq<Token>)
    requires arms.Arm? && (!BlockOk(arms.body, ArmStart(before, arms.cond, ts)) || BlockSize(arms.body) + 4 > MAX_JUMP)
    ensures !ArmsOk(arms, before)
  {
    hide ExprOk, ArmsOk, BlockOk, ArmStart, ArmEnd, BlockSize, ArmsSize;
    ArmOk(before, arms.cond, arms.body, arms.rest, ts);
  }

  /** The body of a conditional loop with its jumps. */
  ghost predicate GuardedDone(before: Emitter, head: seq<Byte>, r: Parsing.Parsed<Block>, body: Emitter, after: Emitter,
                              failed: bool)
  {
    if r.Bad? then failed
    else if BodyOk(r.value, body, |before.code| + |head| + BlockSize(r.value) + 8) &&
            |head| + BlockSize(r.value) + 7 <= MAX_JUMP then
      && !failed && after.rest == r.rest && after.constants == body.constants + BlockConstants(r.value)
      && after.code == before.code + GuardedCode(|before.code|, head, r.value, |body.constants|)
    else failed
  }

  /** The body of an endless loop with its jumps. */
  ghost predicate EndlessDone(body: Emitter, outer: nat, r: Parsing.Parsed<Block>, after: Emitter, failed: bool) {
    if r.Bad? then failed
    else if BodyOk(r.value, body, |body.code| + BlockSize(r.value) + 3) && BlockSize(r.value) + 3 <= MAX_JUMP then
      && !failed && after.rest == r.rest && after.constants == body.constants + BlockConstants(r.value)
      && after.code == body.code + StmtCode(Loop(r.value), |body.code|, |body.constants|, outer, Unknown)
    else failed
  }

  /** The block of an arm with the jumps around it. */
  ghost predicate ArmBlockDone(before: Emitter, c: Expr, r: Parsing.Parsed<Block>, ts: seq<Token>, after: Emitter,
                               elseJump: nat, failed: bool)
  {
    if r.Bad? then failed
    else if BlockOk(r.value, ArmStart(before, c, ts)) && BlockSize(r.value) + 4 <= MAX_JUMP then
      && !failed && after == ArmEnd(before, c, r.value, r.rest)
      && elseJump == |before.code| + ExprSize(c) + 4 + BlockSize(r.value) + 1
    else failed
  }

  /** An arm after its condition c: its block and the rest of the chain. */
  function ArmTokens(c: Expr, ts: seq<Token>, inLoop: bool): Parsing.Parsed<Arms> {
    var b := Parsing.ParseBlock(ts, inLoop, true);
    if b.Bad? then Parsing.Bad else WithTail(c, b.value, Parsing.ParseArmTail(b.rest, inLoop))
  }

  lemma ArmParses(ts: seq<Token>, inLoop: bool)
    ensures var r := Parsing.ParseExpression(Syntax.SkipNewlines(ts));
            Parsing.ParseArm(ts, inLoop) ==
            if r.Bad? then Parsing.Bad
            else ArmTokens(r.value, Syntax.SkipNewlines(Parsing.SkipOptional(Syntax.SkipNewlines(r.rest), TThen)), inLoop)
    ensures var all := Parsing.ParseArm(ts, inLoop);
            all.Parsed? ==> all.value.Arm? && all.value.cond == Parsing.ParseExpression(Syntax.SkipNewlines(ts)).value
  {
    hide Parsing.ParseExpression, Parsing.ParseBlock, Parsing.ParseArmTail, Parsing.SkipOptional;
  }

  function WithTail(c: Expr, b: Block, tail: Parsing.Parsed<Arms>): Parsing.Parsed<Arms> {
    match tail
    case Bad => Parsing.Bad
    case Parsed(arms, rest) => Parsing.Parsed(Arm(c, b, arms), rest)
  }

  /** The jump out of an arm, patched after everything that follows the arm. */
  lemma ArmDone(before: Emitter, c: Expr, b: Block, ts: seq<Token>, r: Parsing.Parsed<Arms>, end: Emitter, after: Emitter,
                failed: bool)
    requires ExprOk(c, |before.constants|) && BlockOk(b, ArmStart(before, c, ts)) && BlockSize(b) + 4 <= MAX_JUMP
    requires end == ArmEnd(before, c, b, end.rest) && ArmsDone(end, r, after, failed)
    ensures failed ==> ArmsDone(before, WithTail(c, b, r), after, true)
    ensures !failed ==>
              var jump := |before.code| + ExprSize(c) + 4 + BlockSize(b) + 1;
              && jump + 2 <= |after.code|
              && ArmsDone(before, WithTail(c, b, r), after.(code := Patched(after.code, jump, |after.code|)),
                          |after.code| - jump - 2 > MAX_JUMP)
  {
    hide ExprOk, BlockOk, ArmStart, ArmEnd, ArmsOk, ArmsEmitted, BlockSize, ExprSize, Patched;
    if r.Parsed? {
      ArmOk(before, c, b, r.value, ts);
      ArmEmitted(before, c, b, r.value, end.rest, r.rest);
      ArmEndRest(before, c, b, r.value, ts, end.rest);
    }
  }

  /** Limits do not depend on the tokens still to be read. */
  lemma ArmEndRest(before: Emitter, c: Expr, b: Block, tail: Arms, ts: seq<Token>, rest: seq<Token>)
    ensures ArmsOk(tail, ArmEnd(before, c, b, ts)) <==> ArmsOk(tail, ArmEnd(before, c, b, rest))
  {
    hide ArmsFits, ArmsConstants, ArmsBreaks, ExprCode, ExprConstants, BlockCode, BlockConstants, BlockBreaks;
  }

  lemma ArmsRest(before: Emitter, arms: Arms, ts: seq<Token>, rest: seq<Token>)
    ensures ArmsOk(arms, before) <==> ArmsOk(arms, before.(rest := ts))
    ensures ArmsEmitted(before, arms, rest) == ArmsEmitted(before.(rest := ts), arms, rest)
  {
    hide ArmsFits, ArmsConstants, ArmsBreaks, ArmsCode;
  }

  lemma NoBreaksYet(start: nat)
    ensures RoomForBreaks(InLoop(start, []), [])
  {
  }

  lemma ScriptStart(before: Emitter)
    requires before.loop.NoLoop?
    ensures RoomForBreaks(before.loop, [])
  {
  }

  /** The limits of a script, and the epilogue after its statements. */
  lemma ScriptDone(before: Emitter, b: Block)
    requires before.code == [] && before.constants == [] && before.loop.NoLoop?
    ensures ScriptFits(b) <==> BlockOk(b, before)
    ensures var e := BlockEmitted(before, b, []);
            ScriptChunk(b) == Chunk(e.code + Encode(PushNil) + Encode(Return), e.constants)
  {
    hide BlockFits, BlockCode, BlockConstants, BlockBreaks, Encode;
    assert [] + BlockCode(b, 0, 0, 0, Unknown) == BlockCode(b, 0, 0, 0, Unknown);
    assert [] + BlockConstants(b) == BlockConstants(b);
  }

  class Compiler {
    var rest: seq<Token>       // the current token and those after it
    var code: seq<Byte>
    var constants: seq<Value>
    var loop: LoopState
    var hadError: bool

    ghost function Now(): Emitter
      reads this
    {
      Emitter(rest, code, constants, loop)
    }

    ghost predicate Ready()
      reads this
    {
      !hadError && |constants| <= MAX_CONSTANTS
    }

    constructor (tokens: seq<Token>)
      ensures Now() == Emitter(tokens, [], [], NoLoop) && Ready()
    {
      rest, code, constants, loop, hadError := tokens, [], [], NoLoop, false;
    }

    // ---- Tokens ----

    method SkipNewlines()
      modifies this`rest
      ensures rest == Syntax.SkipNewlines(old(rest))
    {
      while StartsWith(rest, TNewline)
        invariant Syntax.SkipNewlines(rest) == Syntax.SkipNewlines(old(rest))
        decreases |rest|
      {
        rest := rest[1..];
      }
    }

    method Match(t: Token) returns (matched: bool)
      modifies this`rest
      ensures matched == StartsWith(old(rest), t)
      ensures rest == if matched then old(rest)[1..] else old(rest)
    {
      matched := StartsWith(rest, t);
      if matched { rest := rest[1..]; }
    }

    // ---- Emission ----

    method Emit(i: Instr)
      modifies this`code
      ensures code == old(code) + Encode(i)
    {
      code := code + Encode(i);
    }

    /** Emits a jump with operand 0xFFFF and returns the address of the operand. */
    method EmitJump(i: Instr) returns (offset: nat)
      requires IsForwardJump(i)
      modifies this`code
      ensures code == old(code) + Encode(WithOffset(i, 0xFFFF)) && offset == |old(code)| + 1
    {
      Emit(WithOffset(i, 0xFFFF));
      offset := |code| - 2;
    }

    /** Makes the jump at `offset` go to the end of the code. */
    method PatchJump(offset: nat)
      requires offset + 2 <= |code|
      modifies this`code, this`hadError
      ensures code == Patched(old(code), offset, |old(code)|)
      ensures hadError == (old(hadError) || |code| - offset - 2 > MAX_JUMP)
    {
      var jump := |code| - offset - 2;
      if jump > 65535 {
        hadError := true;
      }
      code := code[offset := jump % 256];
      code := code[offset + 1 := jump / 256 % 256];
    }

    method EmitLoop(start: nat)
      requires start <= |code|
      modifies this`code, this`hadError
      ensures code == old(code) + Encode(LoopBack(|old(code)| + 3 - start))
      ensures hadError == (old(hadError) || |old(code)| + 3 - start > MAX_JUMP)
    {
      code := code + [36];
      var offset := |code| - start + 2;
      if offset > 65535 {
        hadError := true;
      }
      code := code + [offset % 256] + [offset / 256 % 256];
    }

    /** Adds a constant to the pool; an index beyond 16 bits is an error. */
    method MakeConstant(v: Value) returns (index: nat)
      modifies this`constants, this`hadError
      ensures constants == old(constants) + [v]
      ensures hadError == (old(hadError) || |old(constants)| >= MAX_CONSTANTS)
      ensures |old(constants)| < MAX_CONSTANTS ==> index == |old(constants)|
    {
      constants := constants + [v];
      index := |constants| - 1;
      if index > 65535 {
        hadError := true;
        index := 0;
      }
    }

    // ---- Expressions ----

    method Expression()
      requires Ready()
      modifies this`rest, this`code, this`constants, this`hadError
      ensures ExprDone(old(Now()), Parsing.ParseExpression(old(rest)), Now(), hadError)
      ensures !hadError ==> |rest| < |old(rest)| && Ready() && |code| >= |old(code)|
      decreases |rest|, 4
    {
      hide ExprCode, ExprConstants, ExprFits;
      ParsePrecedence(PREC_ASSIGNMENT);
    }

    method ParsePrecedence(p: nat)
      requires Ready()
      modifies this`rest, this`code, this`constants, this`hadError
      ensures ExprDone(old(Now()), Parsing.ParsePrecedence(old(rest), p), Now(), hadError)
      ensures !hadError ==> |rest| < |old(rest)| && Ready()
      decreases |rest|, 3
    {
      hide ExprCode, ExprConstants, ExprFits, Parsing.ParsePrefix, Parsing.ParseOperator;
      ghost var all := rest;
      SkipNewlines();
      ghost var before, ts := Now(), rest;
      Prefix(p <= PREC_ASSIGNMENT);
      ghost var r := Parsing.ParsePrefix(ts, p <= PREC_ASSIGNMENT);
      if hadError {
        if r.Parsed? { InfixKeepsBroken(r.value, r.rest, p, |before.constants|); }
        return;
      }
      ghost var left := r.value;
      while rest != [] && p <= RulePrec(rest[0]) && RulePrec(rest[0]) > PREC_NONE
        invariant Ready() && ExprOk(left, |before.constants|) && Now() == ExprEmitted(before, left, rest)
        invariant Parsing.ParsePrecedence(all, p) == Parsing.ParseInfix(left, rest, p)
        invariant |rest| < |ts|
        decreases |rest|
      {
        ts := rest;
        Infix(before, left);
        r := Parsing.ParseOperator(left, ts);
        if hadError {
          if r.Parsed? { InfixKeepsBroken(r.value, r.rest, p, |before.constants|); }
          return;
        }
        left := r.value;
      }
      if p <= PREC_ASSIGNMENT && StartsWith(rest, TEqual) {
        hadError := true;
      }
    }

    /** The prefix rules: literals, variables, groups and prefix operators. */
    method Prefix(canAssign: bool)
      requires Ready()
      modifies this`rest, this`code, this`constants, this`hadError
      ensures ExprDone(old(Now()), Parsing.ParsePrefix(old(rest), canAssign), Now(), hadError)
      ensures !hadError ==> |rest| < |old(rest)| && Ready()
      decreases |rest|, 2
    {
      hide ExprCode, ExprConstants, ExprFits, Parsing.ParsePrecedence, Encode, ExprOk, Syntax.SkipNewlines, ExprEmitted,
           LiteralInstr, LiteralConstants;
      ghost var before := Now();
      if rest == [] {
        hadError := true;
        return;
      }
      var t := rest[0];
      rest := rest[1..];
      if t.TLit? {
        LiteralDone(before, t.lit, rest);
        EmitLiteral(t.lit);
      } else if t.TIdent? {
        NamedVariable(before, t.name, canAssign);
      } else if t == TLParen {
        Grouping();
        ExprBefore(before, before.rest[1..], Parsing.ParsePrefix(before.rest, canAssign), Now(), hadError);
      } else if Parsing.IsPrefixOp(t) {
        UnaryOperator(Parsing.PrefixOp(t));
        ExprBefore(before, before.rest[1..], Parsing.ParsePrefix(before.rest, canAssign), Now(), hadError);
      } else {
        hadError := true;
      }
    }

    /** A parenthesised expression, after its opening parenthesis. */
    method Grouping()
      requires Ready()
      modifies this`rest, this`code, this`constants, this`hadError
      ensures var r := Parsing.ParseExpression(Syntax.SkipNewlines(old(rest)));
              ExprDone(old(Now()),
                       if r.Bad? || !StartsWith(Syntax.SkipNewlines(r.rest), TRParen) then Parsing.Bad
                       else Parsing.Parsed(r.value, Syntax.SkipNewlines(r.rest)[1..]), Now(), hadError)
      ensures !hadError ==> |rest| < |old(rest)| && Ready()
      decreases |rest|, 5
    {
      hide ExprCode, ExprConstants, ExprOk, Parsing.ParseExpression, Syntax.SkipNewlines;
      SkipNewlines();
      Expression();
      if hadError { return; }
      SkipNewlines();
      var closed := Match(TRParen);
      if !closed { hadError := true; }
    }

    /** A prefix operator, after its token. */
    method UnaryOperator(op: UnOp)
      requires Ready()
      modifies this`rest, this`code, this`constants, this`hadError
      ensures var r := Parsing.ParsePrecedence(old(rest), PREC_UNARY);
              ExprDone(old(Now()), if r.Bad? then Parsing.Bad else Parsing.Parsed(Unary(op, r.value), r.rest), Now(), hadError)
      ensures !hadError ==> |rest| < |old(rest)| && Ready()
      decreases |rest|, 5
    {
      hide ExprCode, ExprConstants, ExprFits, Encode, Parsing.ParsePrecedence, ExprOk, UnaryInstr;
      ghost var before := Now();
      ParsePrecedence(PREC_UNARY);
      UnaryDone(before, op, Parsing.ParsePrecedence(before.rest, PREC_UNARY), Now(), hadError);
      if hadError { return; }
      Emit(UnaryInstr(op));
    }

    method EmitLiteral(lit: Literal)
      requires Ready()
      modifies this`code, this`constants, this`hadError
      ensures hadError == (|old(constants)| + |LiteralConstants(lit)| > MAX_CONSTANTS)
      ensures constants == old(constants) + LiteralConstants(lit)
      ensures !hadError ==> code == old(code) + Encode(LiteralInstr(lit, |old(constants)|))
    {
      if lit.NilLit? {
        Emit(PushNil);
      } else if lit.TrueLit? {
        Emit(PushTrue);
      } else if lit.FalseLit? {
        Emit(PushFalse);
      } else {
        var k := MakeConstant(LiteralValue(lit));
        if !hadError { Emit(Constant(k)); }
      }
    }

    /** A global, read or assigned. Its name is added to the pool before the assigned value is compiled. */
    method NamedVariable(ghost before: Emitter, name: string, canAssign: bool)
      requires Ready() && before.rest != [] && before.rest[0] == TIdent(name)
      requires Now() == before.(rest := before.rest[1..])
      modifies this`rest, this`code, this`constants, this`hadError
      ensures ExprDone(before, Parsing.ParsePrefix(before.rest, canAssign), Now(), hadError)
      ensures !hadError ==> |rest| < |before.rest| && Ready()
      decreases |rest|, 5
    {
      hide ExprCode, ExprConstants, ExprFits, Encode, Parsing.ParsePrecedence;
      VariableParses(before, name, canAssign);
      var arg := MakeConstant(Str(name));
      if hadError { return; }
      var assigning := false;
      if canAssign { assigning := Match(TEqual); }
      if assigning {
        SkipNewlines();
        ghost var inner := Now();
        Expression();
        ghost var r := Parsing.ParseExpression(inner.rest);
        AssignDone(inner.(constants := before.constants), name, r, Now(), hadError);
        if hadError { return; }
        Emit(SetGlobal(arg));
      } else {
        Emit(GetGlobal(arg));
      }
    }

    /** The infix rules: `left` has been emitted since `before`, and an operator is the current token. */
    method Infix(ghost before: Emitter, ghost left: Expr)
      requires Ready() && rest != [] && RulePrec(rest[0]) > PREC_NONE
      requires ExprOk(left, |before.constants|) && Now() == ExprEmitted(before, left, rest)
      modifies this`rest, this`code, this`constants, this`hadError
      ensures ExprDone(before, Parsing.ParseOperator(left, old(rest)), Now(), hadError)
      ensures !hadError ==> |rest| < |old(rest)| && Ready()
      decreases |rest|, 1
    {
      hide ExprCode, ExprConstants, ExprFits, Encode, Parsing.ParsePrecedence, ExprOk, ExprDone;
      var t := rest[0];
      rest := rest[1..];
      if t.TBin? {
        CompileBinary(before, left, t.op);
      } else if t == TAnd || t == TAmpAmp {
        CompileAnd(before, left);
      } else if t == TOr || t == TPipePipe {
        CompileOr(before, left);
      } else {
        CompileCall(before, left);
      }
    }

    /** A binary operator, after its token. */
    method CompileBinary(ghost before: Emitter, ghost left: Expr, op: BinOp)
      requires Ready() && ExprOk(left, |before.constants|) && Now() == ExprEmitted(before, left, rest)
      modifies this`rest, this`code, this`constants, this`hadError
      ensures var r := Parsing.ParsePrecedence(old(rest), BinPrec(op) + 1);
              ExprDone(before, if r.Bad? then Parsing.Bad else Parsing.Parsed(Binary(op, left, r.value), r.rest), Now(), hadError)
      ensures !hadError ==> |rest| < |old(rest)| && Ready()
      decreases |rest|, 6
    {
      hide ExprCode, ExprConstants, ExprFits, Encode, Parsing.ParsePrecedence, ExprOk, ExprEmitted;
      ghost var ts := rest;
      ParsePrecedence(BinPrec(op) + 1);
      BinaryDone(before, left, op, ts, Parsing.ParsePrecedence(ts, BinPrec(op) + 1), Now(), hadError);
      if hadError { return; }
      Emit(Operate(BinaryCode(op)));
    }

    /** A call, after its opening parenthesis. */
    method CompileCall(ghost before: Emitter, ghost callee: Expr)
      requires Ready() && ExprOk(callee, |before.constants|) && Now() == ExprEmitted(before, callee, rest)
      modifies this`rest, this`code, this`constants, this`hadError
      ensures var r := Parsing.ParseArguments(old(rest));
              ExprDone(before, if r.Bad? then Parsing.Bad else Parsing.Parsed(Call(callee, r.value), r.rest), Now(), hadError)
      ensures !hadError ==> |rest| < |old(rest)| && Ready()
      decreases |rest|, 7
    {
      hide ExprCode, ExprConstants, ExprFits, Encode, Parsing.ParseArguments, ExprOk, ExprEmitted, ArgsDone;
      ghost var ts := rest;
      var count := ArgumentList();
      CallDone(before, callee, ts, Parsing.ParseArguments(ts), Now(), hadError);
      if hadError { return; }
      Emit(CallOp(count));
    }

    method CompileAnd(ghost before: Emitter, ghost left: Expr)
      requires Ready() && ExprOk(left, |before.constants|) && Now() == ExprEmitted(before, left, rest)
      modifies this`rest, this`code, this`constants, this`hadError
      ensures var r := Parsing.ParsePrecedence(Syntax.SkipNewlines(old(rest)), PREC_AND);
              ExprDone(before, if r.Bad? then Parsing.Bad else Parsing.Parsed(And(left, r.value), r.rest), Now(), hadError)
      ensures !hadError ==> |rest| < |old(rest)| && Ready()
      decreases |rest|, 5
    {
      hide ExprCode, ExprConstants, ExprFits, Encode, Parsing.ParsePrecedence, Patched, ExprSize, ExprOk, Syntax.SkipNewlines;
      var endJump := EmitJump(JumpIfFalse(0));
      Emit(Pop);
      SkipNewlines();
      ghost var mid := Now();
      ParsePrecedence(PREC_AND);
      ghost var r := Parsing.ParsePrecedence(mid.rest, PREC_AND);
      AndDone(before, left, mid.rest, mid, r, Now(), hadError);
      if hadError { return; }
      PatchJump(endJump);
    }

    /** A conditional jump around an unconditional one; the first is patched at once. */
    method EmitOrJumps() returns (endJump: nat)
      requires !hadError
      modifies this`code, this`hadError
      ensures !hadError && code == old(code) + Encode(JumpIfFalse(3)) + Encode(Jump(0xFFFF))
      ensures endJump == |old(code)| + 4
    {
      hide Encode, Patched;
      ghost var start := code;
      var elseJump := EmitJump(JumpIfFalse(0));
      endJump := EmitJump(Jump(0));
      PatchForward(start, JumpIfFalse(0), Encode(Jump(0xFFFF)));
      PatchJump(elseJump);
    }

    method CompileOr(ghost before: Emitter, ghost left: Expr)
      requires Ready() && ExprOk(left, |before.constants|) && Now() == ExprEmitted(before, left, rest)
      modifies this`rest, this`code, this`constants, this`hadError
      ensures var r := Parsing.ParsePrecedence(Syntax.SkipNewlines(old(rest)), PREC_OR);
              ExprDone(before, if r.Bad? then Parsing.Bad else Parsing.Parsed(Or(left, r.value), r.rest), Now(), hadError)
      ensures !hadError ==> |rest| < |old(rest)| && Ready()
      decreases |rest|, 5
    {
      hide ExprCode, ExprConstants, ExprFits, Encode, Parsing.ParsePrecedence, Patched, ExprSize, ExprOk, Syntax.SkipNewlines;
      var endJump := EmitOrJumps();
      Emit(Pop);
      SkipNewlines();
      ghost var mid := Now();
      ParsePrecedence(PREC_OR);
      ghost var r := Parsing.ParsePrecedence(mid.rest, PREC_OR);
      OrDone(before, left, mid.rest, mid, r, Now(), hadError);
      if hadError { return; }
      PatchJump(endJump);
    }

    /** The arguments of a call, after its opening parenthesis. */
    method ArgumentList() returns (count: nat)
      requires Ready()
      modifies this`rest, this`code, this`constants, this`hadError
      ensures ArgsDone(old(Now()), Parsing.ParseArguments(old(rest)), Now(), hadError)
      ensures !hadError ==> |rest| < |old(rest)| && Ready() && count == Parsing.ParseArguments(old(rest)).value.Length()
      decreases |rest|, 6
    {
      hide ExprCode, ExprConstants, ExprFits, Parsing.ParsePrecedence;
      count := 0;
      ghost var before := Now();
      var closed := Match(TRParen);
      if closed {
        assert before.code + [] == before.code && before.constants + [] == before.constants;
        return;
      }
      count := Arguments(0);
    }

    method LastArgument(ghost before: Emitter, ghost e: Expr)
      requires Ready() && ExprOk(e, |before.constants|) && Now() == ExprEmitted(before, e, rest)
      modifies this`rest, this`hadError
      ensures if StartsWith(old(rest), TRParen) then
                !hadError && ArgsOk(ECons(e, ENil), |before.constants|) &&
                Now() == ArgsEmitted(before, ECons(e, ENil), old(rest)[1..])
              else hadError
    {
      hide ExprCode, ExprConstants, ExprFits, ArgsCode, ArgsConstants, ArgsFit, ExprOk, ArgsOk;
      var closed := Match(TRParen);
      if closed {
        LastArgumentDone(before, e, rest);
      } else {
        hadError := true;
      }
    }

    /** One argument and those after it; `n` arguments have been compiled before. */
    method Arguments(n: nat) returns (count: nat)
      requires Ready() && n <= Parsing.MAX_ARGS
      modifies this`rest, this`code, this`constants, this`hadError
      ensures ArgsDone(old(Now()), Parsing.ParseArgumentList(old(rest), n), Now(), hadError)
      ensures !hadError ==> |rest| < |old(rest)| && Ready()
      ensures !hadError ==> count == n + Parsing.ParseArgumentList(old(rest), n).value.Length()
      decreases |rest|, 5
    {
      hide ExprCode, ExprConstants, ExprFits, ArgsCode, ArgsConstants, ArgsFit, ExprOk, ArgsOk, Parsing.ParseExpression,
           Parsing.ParseArgumentList, Syntax.SkipNewlines;
      ghost var before := Now();
      ArgumentListParses(rest, n);
      count := n;
      SkipNewlines();
      ghost var r := Parsing.ParseExpression(rest);
      Expression();
      if hadError {
        if r.Parsed? { BrokenArgument(r.value, |before.constants|); }
        return;
      }
      if count == Parsing.MAX_ARGS {
        hadError := true;
        return;
      }
      count := count + 1;
      SkipNewlines();
      if StartsWith(rest, TComma) {
        count := MoreArguments(before, r.value, count);
      } else {
        LastArgument(before, r.value);
      }
    }

    method MoreArguments(ghost before: Emitter, ghost e: Expr, n: nat) returns (count: nat)
      requires Ready() && ExprOk(e, |before.constants|) && Now() == ExprEmitted(before, e, rest)
      requires StartsWith(rest, TComma) && n <= Parsing.MAX_ARGS
      modifies this`rest, this`code, this`constants, this`hadError
      ensures var r := Parsing.ParseArgumentList(old(rest)[1..], n);
              && ArgsDone(before, if r.Bad? then Parsing.Bad else Parsing.Parsed(ECons(e, r.value), r.rest), Now(), hadError)
              && (!hadError ==> |rest| < |old(rest)| && Ready() && count == n + r.value.Length())
      decreases |rest|, 5
    {
      hide ExprCode, ExprConstants, ExprFits, ArgsCode, ArgsConstants, ArgsFit, ExprOk, ArgsOk, Parsing.ParseArgumentList;
      rest := rest[1..];
      ghost var mid := Now();
      count := Arguments(n);
      ArgumentDone(before, e, mid, mid.rest, Parsing.ParseArgumentList(mid.rest, n), Now(), hadError);
    }

    // ---- Statements ----

    /** Room for the constants so far, and for the breaks of the current loop. */
    ghost predicate StmtReady()
      reads this
    {
      Ready() && RoomForBreaks(loop, []) && (loop.InLoop? ==> loop.start <= |code|)
    }

    method Statement()
      requires StmtReady()
      requires StatementInRange(rest, loop.InLoop?)
      modifies this
      ensures StmtDone(old(Now()), Parsing.ParseStatement(old(rest), old(loop).InLoop?), Now(), hadError)
      ensures !hadError ==> |rest| < |old(rest)| && StmtReady() && loop.InLoop? == old(loop).InLoop?
      decreases |rest|, 5
    {
      hide StmtDone, Parsing.ParseArm, Parsing.ParseExpression, Parsing.ParseLoopBody, RoomForBreaks, ArmInRange, GuardedInRange,
           LoopInRange;
      if StartsWith(rest, TBreak) || StartsWith(rest, TNext) {
        JumpStatement();
      } else if StartsWith(rest, TIf) || StartsWith(rest, TWhile) || StartsWith(rest, TUntil) || StartsWith(rest, TLoop) {
        BlockStatement();
      } else {
        ExpressionStatement();
      }
    }

    /** break and next. */
    method JumpStatement()
      requires StmtReady() && (StartsWith(rest, TBreak) || StartsWith(rest, TNext))
      modifies this
      ensures StmtDone(old(Now()), Parsing.ParseStatement(old(rest), old(loop).InLoop?), Now(), hadError)
      ensures !hadError ==> |rest| < |old(rest)| && StmtReady() && loop.InLoop? == old(loop).InLoop?
    {
      hide StmtOk, StmtEmitted, RoomForBreaks, Parsing.ParseArm, Parsing.ParseExpression, Parsing.ParseLoopBody;
      ghost var before, inLoop := Now(), loop.InLoop?;
      var isBreak := rest[0] == TBreak;
      rest := rest[1..];
      if isBreak { BreakStatement(); } else { NextStatement(); }
      StmtRest(before, before.rest[1..], Parsing.ParseStatement(before.rest, inLoop), Now(), hadError);
    }

    /** The statements with blocks, at their keyword. */
    method BlockStatement()
      requires StmtReady() && StatementInRange(rest, loop.InLoop?)
      requires StartsWith(rest, TIf) || StartsWith(rest, TWhile) || StartsWith(rest, TUntil) || StartsWith(rest, TLoop)
      modifies this
      ensures StmtDone(old(Now()), Parsing.ParseStatement(old(rest), old(loop).InLoop?), Now(), hadError)
      ensures !hadError ==> |rest| < |old(rest)| && StmtReady() && loop.InLoop? == old(loop).InLoop?
      decreases |rest|, 4
    {
      hide StmtDone, RoomForBreaks, Parsing.ParseArm, Parsing.ParseExpression, Parsing.ParseLoopBody, GuardedLoop, Syntax.SkipNewlines,
           Parsing.SkipOptional, ArmInRange, GuardedInRange, LoopInRange;
      ghost var before, inLoop := Now(), loop.InLoop?;
      var t := rest[0];
      if t == TWhile || t == TUntil { GuardedLoopParses(rest, loop.InLoop?); }
      rest := rest[1..];
      if t == TIf {
        IfStatement();
      } else if t == TWhile {
        WhileStatement();
      } else if t == TUntil {
        UntilStatement();
      } else {
        LoopStatement();
      }
      StmtRest(before, before.rest[1..], Parsing.ParseStatement(before.rest, inLoop), Now(), hadError);
    }

    method ExpressionStatement()
      requires StmtReady()
      modifies this`rest, this`code, this`constants, this`hadError
      ensures var r := Parsing.ParseExpression(old(rest));
              StmtDone(old(Now()), if r.Bad? then Parsing.Bad else Parsing.Parsed(ExprStmt(r.value), r.rest), Now(), hadError)
      ensures !hadError ==> |rest| < |old(rest)| && StmtReady()
      decreases |rest|, 4, 1
    {
      hide ExprOk, ExprEmitted, StmtOk, StmtEmitted, Encode, Parsing.ParsePrecedence;
      ghost var before := Now();
      Expression();
      ExprStmtDone(before, Parsing.ParseExpression(before.rest), Now(), hadError);
      if hadError { return; }
      Emit(Pop);
    }

    method BreakStatement()
      requires StmtReady()
      modifies this
      ensures if old(loop).NoLoop? then hadError
              else StmtDone(old(Now()), Parsing.Parsed(Break, old(rest)), Now(), hadError)
      ensures !hadError ==> rest == old(rest) && StmtReady() && loop.InLoop? == old(loop).InLoop?
    {
      hide Encode, StmtOk, StmtEmitted;
      if loop.NoLoop? {
        hadError := true;
        return;
      }
      BreakDone(Now(), rest);
      if |loop.breaks| >= MAX_BREAKS {
        hadError := true;
        return;
      }
      var jump := EmitJump(Jump(0));
      loop := InLoop(loop.start, loop.breaks + [jump]);
    }

    method NextStatement()
      requires StmtReady()
      modifies this
      ensures if old(loop).NoLoop? then hadError
              else StmtDone(old(Now()), Parsing.Parsed(Next, old(rest)), Now(), hadError)
      ensures !hadError ==> rest == old(rest) && StmtReady() && loop.InLoop? == old(loop).InLoop?
    {
      hide Encode, StmtOk, StmtEmitted;
      if loop.NoLoop? {
        hadError := true;
        return;
      }
      NextDone(Now(), rest);
      EmitLoop(loop.start);
    }

    /** Statements up to the token that ends the block. */
    method Statements(inArm: bool)
      requires StmtReady()
      requires BlockInRange(rest, loop.InLoop?, inArm)
      modifies this
      ensures BlockDone(old(Now()), Parsing.ParseBlock(old(rest), old(loop).InLoop?, inArm), Now(), hadError)
      ensures !hadError ==> |rest| <= |old(rest)| && StmtReady() && loop.InLoop? == old(loop).InLoop?
      decreases |rest|, 6
    {
      hide StatementInRange, BlockInRange, BlockOk, BlockEmitted, StmtOk, StmtEmitted, Parsing.ParseStatement, Parsing.ParseBlock, RoomForBreaks, Syntax.SkipNewlines;
      ghost var before, inLoop := Now(), loop.InLoop?;
      ghost var done := BNil;
      EmptyBlockEmitted(before, rest);
      while !Parsing.EndsBlock(rest, inArm)
        invariant |rest| <= |before.rest| && StmtReady() && loop.InLoop? == inLoop
        invariant BlockOk(done, before) && Now() == BlockEmitted(before, done, rest) && BlockInRange(rest, inLoop, inArm)
        invariant Parsing.ParseBlock(before.rest, inLoop, inArm) == After(done, Parsing.ParseBlock(rest, inLoop, inArm))
        decreases |rest|
      {
        ghost var mid := Now();
        ghost var r := Parsing.ParseStatement(rest, inLoop);
        BlockParses(rest, inLoop, inArm);
        BlockInRangeStep(rest, inLoop, inArm);
        Statement();
        if hadError {
          ghost var all := Parsing.ParseBlock(mid.rest, inLoop, inArm);
          if all.Parsed? { BrokenBlock(before, done, r.value, mid.rest, all); }
          return;
        }
        SkipNewlines();
        AppendDone(before, done, r.value, mid.rest, r.rest, rest, Parsing.ParseBlock(rest, inLoop, inArm));
        done := Append(done, BCons(r.value, BNil));
      }
      BlockEnds(rest, inLoop, inArm);
      AppendNothing(done);
    }

    /** Patches every break of the current loop to the end of the code. */
    method PatchBreaks()
      requires loop.InLoop? && InRange(code, loop.breaks, |code|)
      modifies this`code, this`hadError
      ensures code == PatchedAll(old(code), loop.breaks, |old(code)|)
      ensures hadError == (old(hadError) || !AllReach(loop.breaks, |code|))
    {
      hide Patched;
      ghost var start := code;
      assert PatchedAll(start, [], |start|) == start;
      assert loop.breaks[..0] == [];
      var i := 0;
      while i < |loop.breaks|
        invariant 0 <= i <= |loop.breaks| && |code| == |start|
        invariant InRange(start, loop.breaks[..i], |start|) && code == PatchedAll(start, loop.breaks[..i], |start|)
        invariant hadError == (old(hadError) || !AllReach(loop.breaks[..i], |start|))
      {
        PatchedAllSnoc(start, loop.breaks, i, |start|);
        PatchJump(loop.breaks[i]);
        assert loop.breaks[..i + 1] == loop.breaks[..i] + [loop.breaks[i]];
        AllReachConcat(loop.breaks[..i], [loop.breaks[i]], |start|);
        i := i + 1;
      }
      assert loop.breaks[..i] == loop.breaks;
    }

    /** The common part of `while` and `until`, after the condition: exit jump, body, jump back, exits. */
    method GuardedBody(ghost before: Emitter, ghost head: seq<Byte>, ghost constants0: seq<Value>)
      requires StmtReady() && loop == InLoop(|before.code|, []) && code == before.code + head
      requires BlockInRange(rest, true, false)
      requires constants == before.constants + constants0
      modifies this
      ensures GuardedDone(before, head, Parsing.ParseLoopBody(old(rest)),
                          BodyStart(before, old(rest), head + Encode(JumpIfFalse(0xFFFF)) + Encode(Pop), constants0),
                          Now(), hadError)
      ensures !hadError ==> |rest| < |old(rest)| && Ready()
      decreases |rest|, 8
    {
      hide BlockInRange, Encode, BlockCode, BlockConstants, BlockSize, BlockBreaks, GuardedCode, BlockOk, AllReach, Patched, PatchedAll,
           Parsing.ParseBlock, InRange, RoomForBreaks;
      ghost var ts := rest;
      var start := loop.start;
      var exitJump := EmitJump(JumpIfFalse(0));
      Emit(Pop);
      ghost var body := Now();
      assert body.code == before.code + (head + Encode(JumpIfFalse(0xFFFF)) + Encode(Pop)) by {
        Regroup(before.code, head, Encode(JumpIfFalse(0xFFFF)), Encode(Pop));
      }
      ghost var r := Parsing.ParseBlock(ts, true, false);
      Statements(false);
      if hadError { return; }
      ghost var b := r.value;
      assert loop.breaks == [] + BlockBreaks(b, |body.code|) == BlockBreaks(b, |body.code|);
      GuardedLoopPatched(before.code, head, b, |body.constants|);
      ghost var back := code + Encode(LoopBack(|code| + 3 - start));
      CloseGuarded(start, exitJump, Patched(back, exitJump, |back|) + Encode(Pop));
      if hadError { return; }
      var ended := Match(TEnd);
      if !ended { hadError := true; }
    }

    /** The jump back to the start of a conditional loop, and its exits patched to what follows. */
    method CloseGuarded(start: nat, exitJump: nat, ghost end: seq<Byte>)
      requires !hadError && loop.InLoop? && start <= |code| && exitJump + 2 <= |code|
      requires |end| == |code| + 4 && InRange(end, loop.breaks, |end|)
      modifies this`code, this`hadError
      ensures var back := old(code) + Encode(LoopBack(|old(code)| + 3 - start));
              var open := Patched(back, exitJump, |back|) + Encode(Pop);
              if |old(code)| + 3 - start <= MAX_JUMP && |back| - exitJump - 2 <= MAX_JUMP && AllReach(loop.breaks, |open|) then
                !hadError && InRange(open, loop.breaks, |open|) && code == PatchedAll(open, loop.breaks, |open|)
              else hadError
    {
      hide Encode, AllReach, Patched, PatchedAll;
      EmitLoop(start);
      if hadError { return; }
      PatchJump(exitJump);
      if hadError { return; }
      Emit(Pop);
      PatchBreaks();
    }

    method WhileStatement()
      requires StmtReady()
      requires GuardedInRange(rest)
      modifies this
      ensures StmtDone(old(Now()), GuardedLoop(old(rest), true), Now(), hadError)
      ensures !hadError ==> |rest| < |old(rest)| && StmtReady() && loop == old(loop)
      decreases |rest|, 9
    {
      hide BlockInRange, Encode, ExprCode, ExprConstants, ExprOk, GuardedCode, BodyOk, StmtOk, StmtEmitted, BlockSize, ExprSize,
           Parsing.ParseExpression, Parsing.ParseLoopBody, RoomForBreaks;
      ghost var before := Now();
      var enclosing := loop;
      loop := InLoop(|code|, []);
      SkipNewlines();
      ghost var r := Parsing.ParseExpression(rest);
      Expression();
      if hadError {
        ghost var all := GuardedLoop(before.rest, true);
        if all.Parsed? { BrokenCondition(before, r.value, all.value); }
        return;
      }
      ghost var c := r.value;
      NoBreaksYet(|before.code|);
      SkipNewlines();
      ghost var k := |before.constants|;
      ghost var body := BodyStart(before, rest, ExprCode(c, k) + Encode(JumpIfFalse(0xFFFF)) + Encode(Pop), ExprConstants(c));
      ghost var rb := Parsing.ParseLoopBody(rest);
      GuardedBody(before, ExprCode(c, k), ExprConstants(c));
      if rb.Parsed? { WhileDone(before, c, rb.value, body.rest, body, rb.rest); }
      if hadError { return; }
      loop := enclosing;
    }

    method UntilStatement()
      requires StmtReady()
      requires GuardedInRange(rest)
      modifies this
      ensures StmtDone(old(Now()), GuardedLoop(old(rest), false), Now(), hadError)
      ensures !hadError ==> |rest| < |old(rest)| && StmtReady() && loop == old(loop)
      decreases |rest|, 9
    {
      hide BlockInRange, Encode, ExprCode, ExprConstants, ExprOk, GuardedCode, BodyOk, StmtOk, StmtEmitted, BlockSize, ExprSize,
           Parsing.ParseExpression, Parsing.ParseLoopBody, RoomForBreaks;
      ghost var before := Now();
      var enclosing := loop;
      loop := InLoop(|code|, []);
      SkipNewlines();
      ghost var r := Parsing.ParseExpression(rest);
      Expression();
      if hadError {
        ghost var all := GuardedLoop(before.rest, false);
        if all.Parsed? { BrokenCondition(before, r.value, all.value); }
        return;
      }
      ghost var c := r.value;
      NoBreaksYet(|before.code|);
      SkipNewlines();
      Emit(OpNot);
      ghost var k := |before.constants|;
      ghost var head := ExprCode(c, k) + Encode(OpNot);
      Assoc(before.code, ExprCode(c, k), Encode(OpNot));
      ghost var body := BodyStart(before, rest, head + Encode(JumpIfFalse(0xFFFF)) + Encode(Pop), ExprConstants(c));
      ghost var rb := Parsing.ParseLoopBody(rest);
      GuardedBody(before, head, ExprConstants(c));
      if rb.Parsed? { UntilDone(before, c, rb.value, body.rest, body, rb.rest); }
      if hadError { return; }
      loop := enclosing;
    }

    /** The body of an endless loop, the jump back and the exits. */
    method EndlessBody(ghost outer: nat)
      requires StmtReady() && loop == InLoop(|code|, [])
      requires BlockInRange(rest, true, false)
      modifies this
      ensures EndlessDone(old(Now()), outer, Parsing.ParseLoopBody(old(rest)), Now(), hadError)
      ensures !hadError ==> |rest| < |old(rest)| && Ready()
      decreases |rest|, 8
    {
      hide BlockInRange, Encode, StmtCode, BlockCode, BlockConstants, BlockSize, BlockBreaks, BlockOk, AllReach, PatchedAll,
           Parsing.ParseBlock, InRange, RoomForBreaks;
      ghost var body := Now();
      var start := loop.start;
      ghost var r := Parsing.ParseBlock(rest, true, false);
      Statements(false);
      if hadError { return; }
      ghost var b := r.value;
      assert loop.breaks == [] + BlockBreaks(b, start) == BlockBreaks(b, start);
      EndlessLoopPatched(body.code, b, |body.constants|, outer, Unknown);
      EmitLoop(start);
      if hadError { return; }
      PatchBreaks();
      if hadError { return; }
      var ended := Match(TEnd);
      if !ended { hadError := true; }
    }

    method LoopStatement()
      requires StmtReady()
      requires LoopInRange(rest)
      modifies this
      ensures var r := Parsing.ParseLoopBody(Syntax.SkipNewlines(Parsing.SkipOptional(old(rest), TDo)));
              StmtDone(old(Now()), if r.Bad? then Parsing.Bad else Parsing.Parsed(Loop(r.value), r.rest), Now(), hadError)
      ensures !hadError ==> |rest| < |old(rest)| && StmtReady() && loop == old(loop)
      decreases |rest|, 9
    {
      hide BlockInRange, Encode, StmtCode, BlockConstants, BlockSize, BodyOk, StmtOk, StmtEmitted, Parsing.ParseLoopBody, RoomForBreaks;
      ghost var before := Now();
      var isDo := Match(TDo);
      SkipNewlines();
      var enclosing := loop;
      loop := InLoop(|code|, []);
      NoBreaksYet(|code|);
      ghost var body, r := Now(), Parsing.ParseLoopBody(rest);
      EndlessBody(LoopStart(before.loop));
      if r.Parsed? { LoopDone(before, r.value, body.rest, body, r.rest); }
      if hadError { return; }
      loop := enclosing;
    }

    method IfStatement()
      requires StmtReady()
      requires ArmInRange(rest, loop.InLoop?, 0)
      modifies this
      ensures var r := Parsing.ParseArm(old(rest), old(loop).InLoop?);
              StmtDone(old(Now()),
                       if r.Bad? || !StartsWith(Syntax.SkipNewlines(r.rest), TEnd) then Parsing.Bad
                       else Parsing.Parsed(If(r.value), Syntax.SkipNewlines(r.rest)[1..]), Now(), hadError)
      ensures !hadError ==> |rest| < |old(rest)| && StmtReady() && loop.InLoop? == old(loop).InLoop?
      decreases |rest|, 12
    {
      hide ArmInRange, StmtOk, StmtEmitted, ArmsOk, Parsing.ParseArm, RoomForBreaks, ArmsCode, ArmsConstants, ArmsBreaks;
      ghost var before := Now();
      ghost var r := Parsing.ParseArm(rest, loop.InLoop?);
      CompileArm(0);
      if r.Parsed? { IfDone(before, r.value, Syntax.SkipNewlines(r.rest)[if Syntax.SkipNewlines(r.rest) == [] then 0 else 1..]); }
      if hadError { return; }
      SkipNewlines();
      var ended := Match(TEnd);
      if !ended { hadError := true; }
    }

    /** The optional `then` after a condition, and the newlines around it. */
    method SkipThen()
      modifies this`rest
      ensures rest == Syntax.SkipNewlines(Parsing.SkipOptional(Syntax.SkipNewlines(old(rest)), TThen))
      ensures |rest| <= |old(rest)|
    {
      SkipNewlines();
      var isThen := Match(TThen);
      SkipNewlines();
    }

    /** What follows `if` or `elsif`, with the exit jumps of n arms stored before it. */
    method CompileArm(n: nat)
      requires StmtReady()
      requires ArmInRange(rest, loop.InLoop?, n)
      modifies this
      ensures ArmsDone(old(Now()), Parsing.ParseArm(old(rest), old(loop).InLoop?), Now(), hadError)
      ensures !hadError ==> |rest| < |old(rest)| && StmtReady() && loop.InLoop? == old(loop).InLoop?
      decreases |rest|, 11
    {
      hide Encode, ExprOk, ArmsOk, ArmsEmitted, Parsing.ParseArm, Parsing.ParseExpression, ArmBlockInRange, ArmTokens,
           RoomForBreaks, ExprEmitted, Parsing.SkipOptional, Syntax.SkipNewlines;
      ghost var before := Now();
      ghost var all := Parsing.ParseArm(rest, loop.InLoop?);
      ArmParses(rest, loop.InLoop?);
      SkipNewlines();
      ghost var inner := rest;
      ghost var r := Parsing.ParseExpression(rest);
      Expression();
      if hadError {
        if all.Parsed? { BrokenArmCondition(before, all.value); }
        return;
      }
      SkipThen();
      ExprRest(before, r.value, inner, r.rest, rest);
      CompileGuardedBlock(before, r.value, n);
    }

    /** An arm after its condition. The jump out of it goes to index n of the exit jumps and is patched when the chain
        has ended. */
    method CompileGuardedBlock(ghost before: Emitter, ghost c: Expr, n: nat)
      requires StmtReady() && Now() == ExprEmitted(before, c, rest) && RoomForBreaks(before.loop, [])
      requires ExprOk(c, |before.constants|) && ArmBlockInRange(rest, loop.InLoop?, n)
      modifies this
      ensures ArmsDone(before, ArmTokens(c, old(rest), old(loop).InLoop?), Now(), hadError)
      ensures !hadError ==> |rest| <= |old(rest)| && StmtReady() && loop.InLoop? == old(loop).InLoop?
      decreases |rest|, 10
    {
      hide Encode, ExprOk, BlockOk, BlockEmitted, ArmsOk, ArmsEmitted, ArmStart, ArmEnd, Patched, Parsing.ParseBlock,
           Parsing.ParseArmTail, RoomForBreaks, BlockSize, ExprSize, ExprEmitted, BlockInRange, TailInRange;
      ghost var ts := rest;
      ghost var all := ArmTokens(c, ts, loop.InLoop?);
      ghost var rb := Parsing.ParseBlock(ts, loop.InLoop?, true);
      var elseJump := CompileArmBlock(before, c);
      if hadError {
        if all.Parsed? { BrokenArmBlock(before, all.value, ts); }
        return;
      }
      assert n < MAX_ARMS;   // the exit jump is stored at index n
      ghost var end := Now();
      CompileArmTail(n + 1);
      ArmDone(before, c, rb.value, ts, Parsing.ParseArmTail(end.rest, end.loop.InLoop?), end, Now(), hadError);
      if hadError { return; }
      PatchJump(elseJump);
    }

    /** The block of an arm with the jumps around it. */
    method CompileArmBlock(ghost before: Emitter, ghost c: Expr) returns (elseJump: nat)
      requires StmtReady() && Now() == ExprEmitted(before, c, rest) && RoomForBreaks(before.loop, [])
      requires BlockInRange(rest, loop.InLoop?, true)
      requires ExprOk(c, |before.constants|)
      modifies this
      ensures ArmBlockDone(before, c, Parsing.ParseBlock(old(rest), old(loop).InLoop?, true), old(rest), Now(), elseJump,
                           hadError)
      ensures !hadError ==> |rest| <= |old(rest)| && StmtReady() && loop.InLoop? == old(loop).InLoop?
      decreases |rest|, 8
    {
      hide BlockInRange, Encode, ExprCode, ExprConstants, ExprOk, BlockOk, BlockCode, BlockConstants, BlockBreaks, ArmsOk, ArmEnd, Patched,
           Parsing.ParseBlock, RoomForBreaks, BlockSize, ExprSize, StmtOk, StmtEmitted, StmtCode, StmtBreaks, StmtConstants;
      elseJump := 0;
      ghost var ts := rest;
      var thenJump := EmitJump(JumpIfFalse(0));
      Emit(Pop);
      assert Now() == ArmStart(before, c, ts);
      ghost var r := Parsing.ParseBlock(ts, loop.InLoop?, true);
      Statements(true);
      if hadError { return; }
      ghost var b := r.value;
      ArmSkipPatched(before, c, b, ts, r.rest);
      elseJump := CloseArm(thenJump);
    }

    /** The jump out of an arm, and the jump over it patched to the pop that follows. */
    method CloseArm(thenJump: nat) returns (elseJump: nat)
      requires !hadError && thenJump + 2 <= |code|
      modifies this`code, this`hadError
      ensures var skipped := old(code) + Encode(Jump(0xFFFF));
              if |skipped| - thenJump - 2 <= MAX_JUMP then
                !hadError && code == Patched(skipped, thenJump, |skipped|) + Encode(Pop) && elseJump == |old(code)| + 1
              else hadError
    {
      hide Encode, Patched;
      elseJump := EmitJump(Jump(0));
      PatchJump(thenJump);
      if hadError { return; }
      Emit(Pop);
    }

    /** What follows the block of an arm: another arm, an else block or nothing. */
    method CompileArmTail(n: nat)
      requires StmtReady()
      requires TailInRange(rest, loop.InLoop?, n)
      modifies this
      ensures ArmsDone(old(Now()), Parsing.ParseArmTail(old(rest), old(loop).InLoop?), Now(), hadError)
      ensures !hadError ==> |rest| <= |old(rest)| && StmtReady() && loop.InLoop? == old(loop).InLoop?
      decreases |rest|, 9
    {
      hide ArmInRange, BlockInRange, BlockOk, BlockEmitted, ArmsOk, ArmsEmitted, Parsing.ParseArm, Parsing.ParseBlock, RoomForBreaks;
      ghost var before := Now();
      if StartsWith(rest, TElsif) {
        rest := rest[1..];
        ghost var r := Parsing.ParseArm(rest, loop.InLoop?);
        if r.Parsed? { ArmsRest(before, r.value, rest, r.rest); }
        CompileArm(n);
      } else if StartsWith(rest, TElse) {
        rest := rest[1..];
        SkipNewlines();
        ghost var ts := rest;
        ghost var r := Parsing.ParseBlock(rest, loop.InLoop?, false);
        Statements(false);
        if r.Parsed? {
          ElseDone(before, r.value, r.rest);
          RestIrrelevant(before, r.value, ts, r.rest);
        }
      } else {
        EmptyBlockEmitted(before, rest);
        ElseDone(before, BNil, rest);
      }
    }
  }

  /** A compiled script, or nothing if there was any error. */
  datatype Compiled = CompileError | Function(chunk: Chunk)

  /** The two-pass specification: parse the tokens, then generate the code of the tree. */
  function CompileSpec(tokens: seq<Token>): Compiled {
    match Parsing.ParseScript(tokens)
    case Bad => CompileError
    case Parsed(b, _) => if ScriptFits(b) then Function(ScriptChunk(b)) else CompileError
  }

  /** compile(): while the exit jumps of every chain fit their array, the single pass does what the two passes do. */
  method Compile(tokens: seq<Token>) returns (r: Compiled)
    requires ScriptInRange(tokens)
    ensures r == CompileSpec(tokens)
  {
    hide StatementInRange, ScriptInRange, BlockOk, BlockEmitted, StmtOk, StmtEmitted, Parsing.ParseStatement, RoomForBreaks, Encode;
    var c := new Compiler(tokens);
    ghost var before := c.Now();
    ghost var done := BNil;
    ScriptStart(before);
    NothingInRange();
    EmptyBlockEmitted(before, tokens);
    while c.rest != []
      invariant c.StmtReady() && c.loop.NoLoop?
      invariant BlockOk(done, before) && c.Now() == BlockEmitted(before, done, c.rest)
      invariant Parsing.ParseScript(tokens) == After(done, Parsing.ParseScript(c.rest)) && ScriptInRange(c.rest)
      decreases |c.rest|
    {
      ghost var ts := c.rest;
      c.SkipNewlines();
      EmittedRest(before, done, ts, c.rest);
      ScriptSkips(ts);
      if c.rest != [] {
        ScriptInRangeStep(ts);
        ghost var mid := c.Now();
        ghost var s := Parsing.ParseStatement(c.rest, false);
        ScriptParses(c.rest);
        c.Statement();
        if c.hadError {
          ghost var all := Parsing.ParseScript(mid.rest);
          if all.Parsed? {
            BrokenBlock(before, done, s.value, mid.rest, all);
            ScriptDone(before, After(done, all).value);
          }
          return CompileError;
        }
        AppendDone(before, done, s.value, mid.rest, s.rest, c.rest, Parsing.ParseScript(c.rest));
        done := Append(done, BCons(s.value, BNil));
      }
    }
    AppendNothing(done);
    c.Emit(PushNil);
    c.Emit(Return);
    ScriptDone(before, done);
    r := Function(Chunk(c.code, c.constants));
  }
}
