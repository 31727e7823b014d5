/** Running the bytecode of a script is evaluating the script.

    The simulation is one lemma per syntactic class. Each returns the number of machine steps it
    takes, so the theorems hold for terminating, failing and endless scripts alike. */
module Simulation {
  import opened Syntax
  import opened Runtime
  import opened Machine
  import opened Codegen
  import opened Evaluation
  import opened Printing

  // ---- Single steps ----

  function At(ip: nat, stack: seq<Value>, g: Globals): Config {
    Running(State(ip, stack, g))
  }

  ghost predicate InstrAt(p: Program, at: nat, i: Instr) {
    p.fetch(at) == Fetched(i, at + Size(i))
  }

  ghost predicate ConstantAt(p: Program, k: nat, v: Value) {
    k < |p.constants| && p.constants[k] == v
  }

  lemma StepAt(h: Host, p: Program, i: Instr, at: nat, stack: seq<Value>, g: Globals)
    requires InstrAt(p, at, i)
    ensures Steps(h, p, At(at, stack, g), 1) == Execute(h, p.constants, i, State(at + Size(i), stack, g))
  {
    var c := Step(h, p, At(at, stack, g));
    assert Steps(h, p, c, 0) == c;
  }

  /** Two runs in a row. */
  lemma Then(h: Host, p: Program, a: Config, m: nat, b: Config, n: nat, c: Config)
    requires Steps(h, p, a, m) == b && Steps(h, p, b, n) == c
    ensures Steps(h, p, a, m + n) == c
  {
    StepsAdd(h, p, a, m, n);
  }

  // ---- Where code is ----

  /** The instructions of `e` start at address `at`, and its constants at index `k`. */
  ghost predicate ExprAt(p: Program, e: Expr, at: nat, k: nat) {
    match e
    case Lit(lit) =>
      InstrAt(p, at, LiteralInstr(lit, k)) &&
      (LiteralInstr(lit, k).Constant? ==> ConstantAt(p, k, LiteralValue(lit)))
    case Var(name) => InstrAt(p, at, GetGlobal(k)) && ConstantAt(p, k, Str(name))
    case Assign(name, value) =>
      ConstantAt(p, k, Str(name)) && ExprAt(p, value, at, k + 1) && InstrAt(p, at + ExprSize(value), SetGlobal(k))
    case Unary(op, operand) => ExprAt(p, operand, at, k) && InstrAt(p, at + ExprSize(operand), UnaryInstr(op))
    case Binary(op, l, r) =>
      && ExprAt(p, l, at, k) && ExprAt(p, r, at + ExprSize(l), k + |ExprConstants(l)|)
      && InstrAt(p, at + ExprSize(l) + ExprSize(r), Operate(BinaryCode(op)))
    case And(l, r) =>
      && ExprAt(p, l, at, k) && InstrAt(p, at + ExprSize(l), JumpIfFalse(1 + ExprSize(r)))
      && InstrAt(p, at + ExprSize(l) + 3, Pop)
      && ExprAt(p, r, at + ExprSize(l) + 4, k + |ExprConstants(l)|)
    case Or(l, r) =>
      && ExprAt(p, l, at, k) && InstrAt(p, at + ExprSize(l), JumpIfFalse(3))
      && InstrAt(p, at + ExprSize(l) + 3, Jump(1 + ExprSize(r)))
      && InstrAt(p, at + ExprSize(l) + 6, Pop)
      && ExprAt(p, r, at + ExprSize(l) + 7, k + |ExprConstants(l)|)
    case Call(callee, args) =>
      && ExprAt(p, callee, at, k) && ArgsAt(p, args, at + ExprSize(callee), k + |ExprConstants(callee)|)
      && InstrAt(p, at + ExprSize(callee) + ArgsSize(args), CallOp(args.Length()))
  }

  ghost predicate ArgsAt(p: Program, es: Exprs, at: nat, k: nat) {
    match es
    case ENil => true
    case ECons(e, es) => ExprAt(p, e, at, k) && ArgsAt(p, es, at + ExprSize(e), k + |ExprConstants(e)|)
  }

  // ---- Expressions ----

  /** The configuration after an expression whose code ends at `next`. */
  function AfterExpr(r: ExprResult, next: nat, stack: seq<Value>): Config {
    match r
    case Val(v, g) => At(next, stack + [v], g)
    case Err(error, g) => Failed(error, g)
  }

  function AfterArgs(r: ArgsResult, next: nat, stack: seq<Value>): Config {
    match r
    case Vals(vs, g) => At(next, stack + vs, g)
    case ArgsErr(error, g) => Failed(error, g)
  }

  lemma {:induction false} RunExpr(h: Host, p: Program, e: Expr, at: nat, k: nat, stack: seq<Value>, g: Globals)
    returns (n: nat)
    requires ExprAt(p, e, at, k)
    ensures n > 0
    ensures Steps(h, p, At(at, stack, g), n) ==
            AfterExpr(Eval(h, e, g, |stack|), at + ExprSize(e), stack)
    decreases e
  {
    hide ExprAt, ArgsAt, Eval, EvalArgs, ExprSize, ArgsSize, ExprConstants, Execute, Steps, InstrAt, AfterExpr;
    match e
    case Lit(_) => n := RunLiteral(h, p, e, at, k, stack, g);
    case Var(_) => n := RunVar(h, p, e, at, k, stack, g);
    case Assign(_, _) => n := RunAssign(h, p, e, at, k, stack, g);
    case Unary(_, _) => n := RunUnary(h, p, e, at, k, stack, g);
    case Binary(_, _, _) => n := RunBinary(h, p, e, at, k, stack, g);
    case And(_, _) => n := RunAnd(h, p, e, at, k, stack, g);
    case Or(_, _) => n := RunOr(h, p, e, at, k, stack, g);
    case Call(_, _) => n := RunCall(h, p, e, at, k, stack, g);
  }

  lemma RunLiteral(h: Host, p: Program, e: Expr, at: nat, k: nat, stack: seq<Value>, g: Globals) returns (n: nat)
    requires e.Lit? && ExprAt(p, e, at, k)
    ensures n > 0 && Steps(h, p, At(at, stack, g), n) == AfterExpr(Eval(h, e, g, |stack|), at + ExprSize(e), stack)
  {
    hide Steps;
    StepAt(h, p, LiteralInstr(e.lit, k), at, stack, g);
    n := 1;
  }

  lemma RunVar(h: Host, p: Program, e: Expr, at: nat, k: nat, stack: seq<Value>, g: Globals) returns (n: nat)
    requires e.Var? && ExprAt(p, e, at, k)
    ensures n > 0 && Steps(h, p, At(at, stack, g), n) == AfterExpr(Eval(h, e, g, |stack|), at + ExprSize(e), stack)
  {
    hide Steps;
    StepAt(h, p, GetGlobal(k), at, stack, g);
    n := 1;
  }

  lemma AssignParts(h: Host, p: Program, e: Expr, at: nat, k: nat, g: Globals, d: nat)
    requires e.Assign? && ExprAt(p, e, at, k)
    ensures ConstantAt(p, k, Str(e.name)) && ExprAt(p, e.value, at, k + 1)
    ensures InstrAt(p, at + ExprSize(e.value), SetGlobal(k)) && ExprSize(e) == ExprSize(e.value) + 3
    ensures Eval(h, e, g, d) ==
            match Eval(h, e.value, g, d) case Err(error, g) => Err(error, g) case Val(v, g) => Val(v, g[e.name := v])
  {
  }

  lemma {:induction false} RunAssign(h: Host, p: Program, e: Expr, at: nat, k: nat, stack: seq<Value>, g: Globals)
    returns (n: nat)
    requires e.Assign? && ExprAt(p, e, at, k)
    ensures n > 0 && Steps(h, p, At(at, stack, g), n) == AfterExpr(Eval(h, e, g, |stack|), at + ExprSize(e), stack)
    decreases e, 0
  {
    hide ExprAt, ArgsAt, Eval, EvalArgs, ExprSize, ArgsSize, ExprConstants, Execute, InstrAt, ConstantAt, Steps;
    AssignParts(h, p, e, at, k, g, |stack|);
    n := RunExpr(h, p, e.value, at, k + 1, stack, g);
    n := AssignStep(h, p, at, stack, g, n, Eval(h, e.value, g, |stack|), at + ExprSize(e.value), k, e.name);
  }

  lemma UnaryParts(h: Host, p: Program, e: Expr, at: nat, k: nat, g: Globals, d: nat)
    requires e.Unary? && ExprAt(p, e, at, k)
    ensures ExprAt(p, e.operand, at, k) && InstrAt(p, at + ExprSize(e.operand), UnaryInstr(e.uop))
    ensures ExprSize(e) == ExprSize(e.operand) + 1
    ensures Eval(h, e.operand, g, d).Val? ==> d < STACK_MAX
    ensures Eval(h, e, g, d) ==
            match Eval(h, e.operand, g, d)
            case Err(error, g) => Err(error, g)
            case Val(a, g) => FromResult(ApplyUnary(h, e.uop, a), g)
  {
  }

  lemma {:induction false} RunUnary(h: Host, p: Program, e: Expr, at: nat, k: nat, stack: seq<Value>, g: Globals)
    returns (n: nat)
    requires e.Unary? && ExprAt(p, e, at, k)
    ensures n > 0 && Steps(h, p, At(at, stack, g), n) == AfterExpr(Eval(h, e, g, |stack|), at + ExprSize(e), stack)
    decreases e, 0
  {
    hide ExprAt, ArgsAt, Eval, EvalArgs, ExprSize, ArgsSize, ExprConstants, Execute, InstrAt, Steps;
    UnaryParts(h, p, e, at, k, g, |stack|);
    n := RunExpr(h, p, e.operand, at, k, stack, g);
    n := UnaryStep(h, p, at, stack, g, n, Eval(h, e.operand, g, |stack|), at + ExprSize(e.operand), e.uop);
  }

  lemma BinaryParts(h: Host, p: Program, e: Expr, at: nat, k: nat, g: Globals, d: nat)
    requires e.Binary? && ExprAt(p, e, at, k)
    ensures ExprAt(p, e.left, at, k) && ExprAt(p, e.right, at + ExprSize(e.left), k + |ExprConstants(e.left)|)
    ensures InstrAt(p, at + ExprSize(e.left) + ExprSize(e.right), Operate(BinaryCode(e.op)))
    ensures ExprSize(e) == ExprSize(e.left) + ExprSize(e.right) + 1
    ensures Eval(h, e, g, d) ==
            match Eval(h, e.left, g, d)
            case Err(error, g) => Err(error, g)
            case Val(a, g) =>
              match Eval(h, e.right, g, d + 1)
              case Err(error, g) => Err(error, g)
              case Val(b, g) => FromResult(Apply(h, e.op, a, b), g)
  {
  }

  lemma {:induction false} RunBinary(h: Host, p: Program, e: Expr, at: nat, k: nat, stack: seq<Value>, g: Globals)
    returns (n: nat)
    requires e.Binary? && ExprAt(p, e, at, k)
    ensures n > 0
    ensures Steps(h, p, At(at, stack, g), n) == AfterExpr(Eval(h, e, g, |stack|), at + ExprSize(e), stack)
    decreases e, 0
  {
    hide ExprAt, ArgsAt, Eval, EvalArgs, ExprSize, ArgsSize, ExprConstants, Execute;
    BinaryParts(h, p, e, at, k, g, |stack|);
    var mid := at + ExprSize(e.left);
    n := RunExpr(h, p, e.left, at, k, stack, g);
    var a := Eval(h, e.left, g, |stack|);
    if a.Val? {
      var m := RunExpr(h, p, e.right, mid, k + |ExprConstants(e.left)|, stack + [a.v], a.g);
      n := BinaryStep(h, p, at, stack, g, n, a, mid, m, Eval(h, e.right, a.g, |stack| + 1), mid + ExprSize(e.right), e.op);
    }
  }

  lemma AndParts(h: Host, p: Program, e: Expr, at: nat, k: nat, g: Globals, d: nat)
    requires e.And? && ExprAt(p, e, at, k)
    ensures ExprAt(p, e.left, at, k) && ExprAt(p, e.right, at + ExprSize(e.left) + 4, k + |ExprConstants(e.left)|)
    ensures InstrAt(p, at + ExprSize(e.left), JumpIfFalse(1 + ExprSize(e.right)))
    ensures InstrAt(p, at + ExprSize(e.left) + 3, Pop)
    ensures ExprSize(e) == ExprSize(e.left) + 4 + ExprSize(e.right)
    ensures Eval(h, e, g, d) ==
            match Eval(h, e.left, g, d)
            case Err(error, g) => Err(error, g)
            case Val(a, g) => if Falsy(a) then Val(a, g) else Eval(h, e.right, g, d)
  {
  }

  lemma {:induction false} RunAnd(h: Host, p: Program, e: Expr, at: nat, k: nat, stack: seq<Value>, g: Globals)
    returns (n: nat)
    requires e.And? && ExprAt(p, e, at, k)
    ensures n > 0
    ensures Steps(h, p, At(at, stack, g), n) == AfterExpr(Eval(h, e, g, |stack|), at + ExprSize(e), stack)
    decreases e, 0
  {
    hide ExprAt, ArgsAt, Eval, EvalArgs, ExprSize, ArgsSize, ExprConstants, Execute;
    AndParts(h, p, e, at, k, g, |stack|);
    var mid := at + ExprSize(e.left);
    n := RunExpr(h, p, e.left, at, k, stack, g);
    var a := Eval(h, e.left, g, |stack|);
    if a.Val? {
      var m := RunExpr(h, p, e.right, mid + 4, k + |ExprConstants(e.left)|, stack, a.g);
      n := AndStep(h, p, at, stack, g, n, a, mid, m, Eval(h, e.right, a.g, |stack|), ExprSize(e.right));
    }
  }

  lemma OrParts(h: Host, p: Program, e: Expr, at: nat, k: nat, g: Globals, d: nat)
    requires e.Or? && ExprAt(p, e, at, k)
    ensures ExprAt(p, e.left, at, k) && ExprAt(p, e.right, at + ExprSize(e.left) + 7, k + |ExprConstants(e.left)|)
    ensures InstrAt(p, at + ExprSize(e.left), JumpIfFalse(3))
    ensures InstrAt(p, at + ExprSize(e.left) + 3, Jump(1 + ExprSize(e.right)))
    ensures InstrAt(p, at + ExprSize(e.left) + 6, Pop)
    ensures ExprSize(e) == ExprSize(e.left) + 7 + ExprSize(e.right)
    ensures Eval(h, e, g, d) ==
            match Eval(h, e.left, g, d)
            case Err(error, g) => Err(error, g)
            case Val(a, g) => if Falsy(a) then Eval(h, e.right, g, d) else Val(a, g)
  {
  }

  lemma {:induction false} RunOr(h: Host, p: Program, e: Expr, at: nat, k: nat, stack: seq<Value>, g: Globals)
    returns (n: nat)
    requires e.Or? && ExprAt(p, e, at, k)
    ensures n > 0
    ensures Steps(h, p, At(at, stack, g), n) == AfterExpr(Eval(h, e, g, |stack|), at + ExprSize(e), stack)
    decreases e, 0
  {
    hide ExprAt, ArgsAt, Eval, EvalArgs, ExprSize, ArgsSize, ExprConstants, Execute;
    OrParts(h, p, e, at, k, g, |stack|);
    var mid := at + ExprSize(e.left);
    n := RunExpr(h, p, e.left, at, k, stack, g);
    var a := Eval(h, e.left, g, |stack|);
    if a.Val? {
      var m := RunExpr(h, p, e.right, mid + 7, k + |ExprConstants(e.left)|, stack, a.g);
      n := OrStep(h, p, at, stack, g, n, a, mid, m, Eval(h, e.right, a.g, |stack|), ExprSize(e.right));
    }
  }

  lemma CallParts(h: Host, p: Program, e: Expr, at: nat, k: nat, g: Globals, d: nat)
    requires e.Call? && ExprAt(p, e, at, k)
    ensures ExprAt(p, e.callee, at, k) && ArgsAt(p, e.args, at + ExprSize(e.callee), k + |ExprConstants(e.callee)|)
    ensures InstrAt(p, at + ExprSize(e.callee) + ArgsSize(e.args), CallOp(e.args.Length()))
    ensures ExprSize(e) == ExprSize(e.callee) + ArgsSize(e.args) + 2
    ensures Eval(h, e, g, d) ==
            match Eval(h, e.callee, g, d)
            case Err(error, g) => Err(error, g)
            case Val(f, g) =>
              match EvalArgs(h, e.args, g, d + 1)
              case ArgsErr(error, g) => Err(error, g)
              case Vals(vs, g) => FromCall(CallValue(h, f, vs, g, d + 1 + |vs|))
  {
    hide ExprAt, ArgsAt, Eval, EvalArgs, ExprSize, ArgsSize, ExprConstants, InstrAt, FromCall, CallValue;
    CallCode(p, e, at, k);
    CallMeaning(h, e, g, d);
  }

  lemma CallCode(p: Program, e: Expr, at: nat, k: nat)
    requires e.Call? && ExprAt(p, e, at, k)
    ensures ExprAt(p, e.callee, at, k) && ArgsAt(p, e.args, at + ExprSize(e.callee), k + |ExprConstants(e.callee)|)
    ensures InstrAt(p, at + ExprSize(e.callee) + ArgsSize(e.args), CallOp(e.args.Length()))
    ensures ExprSize(e) == ExprSize(e.callee) + ArgsSize(e.args) + 2
  {
    hide InstrAt;
  }

  lemma CallMeaning(h: Host, e: Expr, g: Globals, d: nat)
    requires e.Call?
    ensures Eval(h, e, g, d) ==
            match Eval(h, e.callee, g, d)
            case Err(error, g) => Err(error, g)
            case Val(f, g) =>
              match EvalArgs(h, e.args, g, d + 1)
              case ArgsErr(error, g) => Err(error, g)
              case Vals(vs, g) => FromCall(CallValue(h, f, vs, g, d + 1 + |vs|))
  {
    hide EvalArgs, FromCall, CallValue;
  }

  lemma {:induction false} RunCall(h: Host, p: Program, e: Expr, at: nat, k: nat, stack: seq<Value>, g: Globals)
    returns (n: nat)
    requires e.Call? && ExprAt(p, e, at, k)
    ensures n > 0
    ensures Steps(h, p, At(at, stack, g), n) == AfterExpr(Eval(h, e, g, |stack|), at + ExprSize(e), stack)
    decreases e, 0
  {
    hide ExprAt, ArgsAt, Eval, EvalArgs, ExprSize, ArgsSize, ExprConstants, Execute;
    CallParts(h, p, e, at, k, g, |stack|);
    var mid := at + ExprSize(e.callee);
    n := RunExpr(h, p, e.callee, at, k, stack, g);
    var f := Eval(h, e.callee, g, |stack|);
    if f.Val? {
      var m := RunArgs(h, p, e.args, mid, k + |ExprConstants(e.callee)|, stack + [f.v], f.g);
      n := CallStep(h, p, at, stack, g, n, f, mid, m, EvalArgs(h, e.args, f.g, |stack| + 1), mid + ArgsSize(e.args),
                    e.args.Length());
    }
  }

  lemma ArgsParts(h: Host, p: Program, es: Exprs, at: nat, k: nat, g: Globals, d: nat)
    requires es.ECons? && ArgsAt(p, es, at, k)
    ensures ExprAt(p, es.head, at, k) && ArgsAt(p, es.tail, at + ExprSize(es.head), k + |ExprConstants(es.head)|)
    ensures ArgsSize(es) == ExprSize(es.head) + ArgsSize(es.tail)
    ensures EvalArgs(h, es, g, d) ==
            match Eval(h, es.head, g, d)
            case Err(error, g) => ArgsErr(error, g)
            case Val(v, g) =>
              match EvalArgs(h, es.tail, g, d + 1)
              case ArgsErr(error, g) => ArgsErr(error, g)
              case Vals(vs, g) => Vals([v] + vs, g)
  {
  }

  lemma {:induction false} RunArgs(h: Host, p: Program, es: Exprs, at: nat, k: nat, stack: seq<Value>, g: Globals)
    returns (n: nat)
    requires ArgsAt(p, es, at, k)
    ensures Steps(h, p, At(at, stack, g), n) == AfterArgs(EvalArgs(h, es, g, |stack|), at + ArgsSize(es), stack)
    decreases es
  {
    if es.ENil? {
      assert stack + [] == stack;
      n := 0;
    } else {
      n := RunMoreArgs(h, p, es, at, k, stack, g);
    }
  }

  lemma {:induction false} RunMoreArgs(h: Host, p: Program, es: Exprs, at: nat, k: nat, stack: seq<Value>, g: Globals)
    returns (n: nat)
    requires es.ECons? && ArgsAt(p, es, at, k)
    ensures Steps(h, p, At(at, stack, g), n) == AfterArgs(EvalArgs(h, es, g, |stack|), at + ArgsSize(es), stack)
    decreases es, 0
  {
    hide ExprAt, ArgsAt, Eval, EvalArgs, ExprSize, ArgsSize, ExprConstants, Execute;
    ArgsParts(h, p, es, at, k, g, |stack|);
    n := RunExpr(h, p, es.head, at, k, stack, g);
    var a := Eval(h, es.head, g, |stack|);
    if a.Val? {
      var mid := at + ExprSize(es.head);
      var m := RunArgs(h, p, es.tail, mid, k + |ExprConstants(es.head)|, stack + [a.v], a.g);
      ArgsStep(h, p, At(at, stack, g), n, mid, stack, a, m, EvalArgs(h, es.tail, a.g, |stack| + 1),
               mid + ArgsSize(es.tail));
      n := n + m;
    }
  }

  lemma ArgsStep(h: Host, p: Program, from: Config, n: nat, mid: nat, stack: seq<Value>, a: ExprResult, m: nat,
                 b: ArgsResult, next: nat)
    requires a.Val? && Steps(h, p, from, n) == At(mid, stack + [a.v], a.g)
    requires Steps(h, p, At(mid, stack + [a.v], a.g), m) == AfterArgs(b, next, stack + [a.v])
    ensures Steps(h, p, from, n + m) ==
            match b case ArgsErr(e, g') => Failed(e, g') case Vals(vs, g') => At(next, stack + ([a.v] + vs), g')
  {
    Then(h, p, from, n, At(mid, stack + [a.v], a.g), m, AfterArgs(b, next, stack + [a.v]));
    if b.Vals? { assert stack + [a.v] + b.vs == stack + ([a.v] + b.vs); }
  }

  // The steps after the operands have run, in terms of their results only.

  lemma AssignStep(h: Host, p: Program, at: nat, stack: seq<Value>, g: Globals, n: nat, r: ExprResult, next: nat,
                   k: nat, name: string) returns (m: nat)
    requires n > 0 && Steps(h, p, At(at, stack, g), n) == AfterExpr(r, next, stack)
    requires InstrAt(p, next, SetGlobal(k)) && ConstantAt(p, k, Str(name))
    ensures m > 0 && Steps(h, p, At(at, stack, g), m) ==
            match r case Err(e, g') => Failed(e, g') case Val(v, g') => At(next + 3, stack + [v], g'[name := v])
  {
    m := n;
    if r.Val? {
      StepAt(h, p, SetGlobal(k), next, stack + [r.v], r.g);
      Then(h, p, At(at, stack, g), n, At(next, stack + [r.v], r.g), 1, At(next + 3, stack + [r.v], r.g[name := r.v]));
      m := n + 1;
    }
  }

  lemma UnaryStep(h: Host, p: Program, at: nat, stack: seq<Value>, g: Globals, n: nat, r: ExprResult, next: nat,
                  op: UnOp) returns (m: nat)
    requires n > 0 && Steps(h, p, At(at, stack, g), n) == AfterExpr(r, next, stack)
    requires InstrAt(p, next, UnaryInstr(op)) && (r.Val? ==> |stack| < STACK_MAX)
    ensures m > 0 && Steps(h, p, At(at, stack, g), m) ==
            match r case Err(e, g') => Failed(e, g')
                    case Val(v, g') => AfterExpr(FromResult(ApplyUnary(h, op, v), g'), next + 1, stack)
  {
    m := n;
    if r.Val? {
      var full := stack + [r.v];
      StepAt(h, p, UnaryInstr(op), next, full, r.g);
      assert full[..|full| - 1] == stack;
      Then(h, p, At(at, stack, g), n, At(next, full, r.g), 1,
           Execute(h, p.constants, UnaryInstr(op), State(next + 1, full, r.g)));
      m := n + 1;
    }
  }

  lemma BinaryStep(h: Host, p: Program, at: nat, stack: seq<Value>, g: Globals, n: nat, a: ExprResult, mid: nat,
                   m: nat, b: ExprResult, next: nat, op: BinOp) returns (total: nat)
    requires a.Val? && |stack| < STACK_MAX
    requires n > 0 && Steps(h, p, At(at, stack, g), n) == At(mid, stack + [a.v], a.g)
    requires Steps(h, p, At(mid, stack + [a.v], a.g), m) == AfterExpr(b, next, stack + [a.v])
    requires InstrAt(p, next, Operate(BinaryCode(op)))
    ensures total > 0 && Steps(h, p, At(at, stack, g), total) ==
            match b case Err(e, g') => Failed(e, g')
                    case Val(v, g') => AfterExpr(FromResult(Apply(h, op, a.v, v), g'), next + 1, stack)
  {
    Then(h, p, At(at, stack, g), n, At(mid, stack + [a.v], a.g), m, AfterExpr(b, next, stack + [a.v]));
    total := n + m;
    if b.Val? {
      OperateStep(h, p, At(at, stack, g), total, next, stack, a.v, b.v, b.g, BinaryCode(op));
      OpcodesMeanOperators(h, op, a.v, b.v);
      total := total + 1;
    }
  }

  /** The opcode the compiler picks for an operator computes that operator. */
  lemma OpcodesMeanOperators(h: Host, op: BinOp, a: Value, b: Value)
    ensures Operation(h, BinaryCode(op), a, b) == Apply(h, op, a, b)
  {
    hide Add, Subtract, Multiply, Divide, Remainder, Power, Equal, Compare, Bitwise, Shift;
  }

  lemma OperateStep(h: Host, p: Program, from: Config, n: nat, at: nat, stack: seq<Value>, a: Value, b: Value,
                    g: Globals, c: BinCode)
    requires |stack| < STACK_MAX && InstrAt(p, at, Operate(c))
    requires Steps(h, p, from, n) == At(at, stack + [a] + [b], g)
    ensures Steps(h, p, from, n + 1) == AfterExpr(FromResult(Operation(h, c, a, b), g), at + 1, stack)
  {
    var full := stack + [a] + [b];
    StepAt(h, p, Operate(c), at, full, g);
    assert full[..|full| - 2] == stack && full[|full| - 2] == a && full[|full| - 1] == b;
    Then(h, p, from, n, At(at, full, g), 1, Execute(h, p.constants, Operate(c), State(at + 1, full, g)));
  }

  /** Popping what a jump left on the stack, and going on from there. */
  lemma PopThen(h: Host, p: Program, at: nat, stack: seq<Value>, v: Value, g: Globals, m: nat, after: Config)
    requires InstrAt(p, at, Pop) && Steps(h, p, At(at + 1, stack, g), m) == after
    ensures Steps(h, p, At(at, stack + [v], g), 1 + m) == after
  {
    StepAt(h, p, Pop, at, stack + [v], g);
    assert (stack + [v])[..|stack|] == stack;
    Then(h, p, At(at, stack + [v], g), 1, At(at + 1, stack, g), m, after);
  }

  /** A conditional jump leaves its condition on the stack, whichever way it goes. */
  lemma BranchStep(h: Host, p: Program, from: Config, n: nat, at: nat, off: nat, stack: seq<Value>, v: Value, g: Globals)
    requires Steps(h, p, from, n) == At(at, stack + [v], g) && InstrAt(p, at, JumpIfFalse(off))
    ensures Steps(h, p, from, n + 1) == At(if Falsy(v) then at + 3 + off else at + 3, stack + [v], g)
  {
    StepAt(h, p, JumpIfFalse(off), at, stack + [v], g);
    Then(h, p, from, n, At(at, stack + [v], g), 1, At(if Falsy(v) then at + 3 + off else at + 3, stack + [v], g));
  }

  lemma AndStep(h: Host, p: Program, at: nat, stack: seq<Value>, g: Globals, n: nat, a: ExprResult, mid: nat,
                m: nat, b: ExprResult, size: nat) returns (total: nat)
    requires a.Val? && n > 0 && Steps(h, p, At(at, stack, g), n) == At(mid, stack + [a.v], a.g)
    requires Steps(h, p, At(mid + 4, stack, a.g), m) == AfterExpr(b, mid + 4 + size, stack)
    requires InstrAt(p, mid, JumpIfFalse(1 + size)) && InstrAt(p, mid + 3, Pop)
    ensures total > 0 && Steps(h, p, At(at, stack, g), total) ==
            AfterExpr(if Falsy(a.v) then a else b, mid + 4 + size, stack)
  {
    hide Steps, InstrAt;
    BranchStep(h, p, At(at, stack, g), n, mid, 1 + size, stack, a.v, a.g);
    total := n + 1;
    if !Falsy(a.v) {
      PopThen(h, p, mid + 3, stack, a.v, a.g, m, AfterExpr(b, mid + 4 + size, stack));
      Then(h, p, At(at, stack, g), n + 1, At(mid + 3, stack + [a.v], a.g), 1 + m, AfterExpr(b, mid + 4 + size, stack));
      total := n + 1 + (1 + m);
    }
  }

  lemma OrStep(h: Host, p: Program, at: nat, stack: seq<Value>, g: Globals, n: nat, a: ExprResult, mid: nat,
               m: nat, b: ExprResult, size: nat) returns (total: nat)
    requires a.Val? && n > 0 && Steps(h, p, At(at, stack, g), n) == At(mid, stack + [a.v], a.g)
    requires Steps(h, p, At(mid + 7, stack, a.g), m) == AfterExpr(b, mid + 7 + size, stack)
    requires InstrAt(p, mid, JumpIfFalse(3)) && InstrAt(p, mid + 3, Jump(1 + size)) && InstrAt(p, mid + 6, Pop)
    ensures total > 0 && Steps(h, p, At(at, stack, g), total) ==
            AfterExpr(if Falsy(a.v) then b else a, mid + 7 + size, stack)
  {
    hide Steps, InstrAt;
    BranchStep(h, p, At(at, stack, g), n, mid, 3, stack, a.v, a.g);
    if Falsy(a.v) {
      PopThen(h, p, mid + 6, stack, a.v, a.g, m, AfterExpr(b, mid + 7 + size, stack));
      Then(h, p, At(at, stack, g), n + 1, At(mid + 6, stack + [a.v], a.g), 1 + m, AfterExpr(b, mid + 7 + size, stack));
      total := n + 1 + (1 + m);
    } else {
      var one := RunJump(h, p, Jump(1 + size), mid + 3, mid + 7 + size, stack + [a.v], a.g);
      Then(h, p, At(at, stack, g), n + 1, At(mid + 3, stack + [a.v], a.g), 1, At(mid + 7 + size, stack + [a.v], a.g));
      total := n + 1 + 1;
    }
  }

  lemma CallStep(h: Host, p: Program, at: nat, stack: seq<Value>, g: Globals, n: nat, f: ExprResult, mid: nat,
                 m: nat, b: ArgsResult, next: nat, count: nat) returns (total: nat)
    requires f.Val? && |stack| < STACK_MAX && (b.Vals? ==> |b.vs| == count)
    requires n > 0 && Steps(h, p, At(at, stack, g), n) == At(mid, stack + [f.v], f.g)
    requires Steps(h, p, At(mid, stack + [f.v], f.g), m) == AfterArgs(b, next, stack + [f.v])
    requires InstrAt(p, next, CallOp(count))
    ensures total > 0 && Steps(h, p, At(at, stack, g), total) ==
            match b case ArgsErr(e, g') => Failed(e, g')
                    case Vals(vs, g') => AfterExpr(FromCall(CallValue(h, f.v, vs, g', |stack| + 1 + |vs|)), next + 2, stack)
  {
    Then(h, p, At(at, stack, g), n, At(mid, stack + [f.v], f.g), m, AfterArgs(b, next, stack + [f.v]));
    total := n + m;
    if b.Vals? {
      var full := stack + [f.v] + b.vs;
      StepAt(h, p, CallOp(count), next, full, b.g);
      assert full[..|full| - (count + 1)] == stack;
      assert full[|full| - count..] == b.vs;
      assert full[|full| - count - 1] == f.v;
      Then(h, p, At(at, stack, g), total, At(next, full, b.g), 1,
           Execute(h, p.constants, CallOp(count), State(next + 2, full, b.g)));
      total := total + 1;
    }
  }

  // ---- Statements ----

  /** The instructions of `s`; a `break` jumps to `exit` and a `next` back to `start`, so both need a loop. */
  ghost predicate StmtAt(p: Program, s: Stmt, at: nat, k: nat, start: nat, exit: Target)
    decreases s
  {
    match s
    case ExprStmt(e) => ExprAt(p, e, at, k) && InstrAt(p, at + ExprSize(e), Pop)
    case If(arms) => ArmsAt(p, arms, at, k, start, exit)
    case While(c, b) =>
      && ExprAt(p, c, at, k)
      && GuardAt(p, at + ExprSize(c), BlockSize(b) + 4)
      && LoopAt(p, b, at + ExprSize(c) + 4, k + |ExprConstants(c)|, at, at + StmtSize(s))
      && InstrAt(p, at + ExprSize(c) + BlockSize(b) + 7, Pop)
    case Until(c, b) =>
      && ExprAt(p, c, at, k)
      && InstrAt(p, at + ExprSize(c), OpNot)
      && GuardAt(p, at + ExprSize(c) + 1, BlockSize(b) + 4)
      && LoopAt(p, b, at + ExprSize(c) + 5, k + |ExprConstants(c)|, at, at + StmtSize(s))
      && InstrAt(p, at + ExprSize(c) + BlockSize(b) + 8, Pop)
    case Loop(b) => LoopAt(p, b, at, k, at, at + StmtSize(s))
    case Break => exit.Address? && at + 3 <= exit.a && InstrAt(p, at, Jump(exit.a - (at + 3)))
    case Next => exit.Address? && start <= at && InstrAt(p, at, LoopBack(at + 3 - start))
  }

  /** A conditional jump and the pop of the condition when it is not taken. */
  ghost predicate GuardAt(p: Program, at: nat, off: nat) {
    InstrAt(p, at, JumpIfFalse(off)) && InstrAt(p, at + 3, Pop)
  }

  /** A loop body and the jump back to `start`. */
  ghost predicate LoopAt(p: Program, b: Block, at: nat, k: nat, start: nat, exit: nat)
    decreases b, 1
  {
    && BlockAt(p, b, at, k, start, Address(exit))
    && start <= at && InstrAt(p, at + BlockSize(b), LoopBack(at + BlockSize(b) + 3 - start))
  }

  ghost predicate ArmsAt(p: Program, arms: Arms, at: nat, k: nat, start: nat, exit: Target)
    decreases arms
  {
    match arms
    case Arm(c, b, rest) =>
      && ExprAt(p, c, at, k)
      && GuardAt(p, at + ExprSize(c), BlockSize(b) + 4)
      && BlockAt(p, b, at + ExprSize(c) + 4, k + |ExprConstants(c)|, start, exit)
      && InstrAt(p, at + ExprSize(c) + 4 + BlockSize(b), Jump(1 + ArmsSize(rest)))
      && InstrAt(p, at + ExprSize(c) + BlockSize(b) + 7, Pop)
      && ArmsAt(p, rest, at + ExprSize(c) + BlockSize(b) + 8, k + |ExprConstants(c)| + |BlockConstants(b)|, start, exit)
    case Else(b) => BlockAt(p, b, at, k, start, exit)
  }

  ghost predicate BlockAt(p: Program, b: Block, at: nat, k: nat, start: nat, exit: Target)
    decreases b, 0
  {
    match b
    case BNil => true
    case BCons(s, b) =>
      StmtAt(p, s, at, k, start, exit) && BlockAt(p, b, at + StmtSize(s), k + |StmtConstants(s)|, start, exit)
  }

  /** `n` steps from `from` do what the outcome says. The stack is back at its depth after every
      statement, however it ends; a statement that ran out of fuel has kept the machine running for
      at least that many steps. */
  ghost predicate Simulates(h: Host, p: Program, from: Config, n: nat, o: Outcome, stack: seq<Value>, next: nat,
                            start: nat, exit: Target, fuel: nat)
  {
    match o
    case Normal(g) => Steps(h, p, from, n) == At(next, stack, g)
    case Broke(g) => 0 < n && exit.Address? && Steps(h, p, from, n) == At(exit.a, stack, g)
    case Continued(g) => 0 < n && exit.Address? && Steps(h, p, from, n) == At(start, stack, g)
    case Raised(e, g) => Steps(h, p, from, n) == Failed(e, g)
    case OutOfFuel => fuel <= n && Steps(h, p, from, n).Running?
  }

  /** A prefix of steps before a simulated statement. */
  lemma Prepend(h: Host, p: Program, from: Config, m: nat, mid: Config, n: nat, o: Outcome, stack: seq<Value>, next: nat,
                start: nat, exit: Target, fuel: nat)
    requires Steps(h, p, from, m) == mid && Simulates(h, p, mid, n, o, stack, next, start, exit, fuel)
    ensures Simulates(h, p, from, m + n, o, stack, next, start, exit, m + fuel)
    ensures Simulates(h, p, from, m + n, o, stack, next, start, exit, fuel)
  {
    hide Execute;
    StepsAdd(h, p, from, m, n);
  }

  lemma {:induction false} RunBlock(h: Host, p: Program, b: Block, at: nat, k: nat, start: nat, exit: Target,
                                    stack: seq<Value>, g: Globals, fuel: nat) returns (n: nat)
    requires BlockAt(p, b, at, k, start, exit)
    ensures Simulates(h, p, At(at, stack, g), n, EvalBlock(h, b, g, |stack|, fuel), stack, at + BlockSize(b),
                      start, exit, fuel)
    decreases fuel, b, 0
  {
    hide StmtAt, StmtConstants, EvalStmt, StmtSize, Execute;
    if b.BNil? {
      n := 0;
    } else {
      n := RunStmt(h, p, b.head, at, k, start, exit, stack, g, fuel);
      var o := EvalStmt(h, b.head, g, |stack|, fuel);
      if o.Normal? {
        var mid := at + StmtSize(b.head);
        var m := RunBlock(h, p, b.tail, mid, k + |StmtConstants(b.head)|, start, exit, stack, o.g, fuel);
        Prepend(h, p, At(at, stack, g), n, At(mid, stack, o.g), m, EvalBlock(h, b.tail, o.g, |stack|, fuel), stack,
                mid + BlockSize(b.tail), start, exit, fuel);
        n := n + m;
      }
    }
  }

  lemma {:induction false} RunStmt(h: Host, p: Program, s: Stmt, at: nat, k: nat, start: nat, exit: Target,
                                   stack: seq<Value>, g: Globals, fuel: nat) returns (n: nat)
    requires StmtAt(p, s, at, k, start, exit)
    ensures Simulates(h, p, At(at, stack, g), n, EvalStmt(h, s, g, |stack|, fuel), stack, at + StmtSize(s),
                      start, exit, fuel)
    decreases fuel, s, 2
  {
    hide ExprAt, Eval, ExprSize, ExprConstants, ArmsAt, BlockAt, EvalBlock, BlockSize, ArmsSize, EvalArms, Execute;
    match s
    case ExprStmt(e) => n := RunExprStmt(h, p, e, at, k, stack, g);
    case If(arms) => n := RunArms(h, p, arms, at, k, start, exit, stack, g, fuel);
    case While(_, _) => n := RunWhile(h, p, s, at, k, start, exit, stack, g, fuel);
    case Until(_, _) => n := RunUntil(h, p, s, at, k, start, exit, stack, g, fuel);
    case Loop(b) =>
      if fuel == 0 {
        n := 0;
        assert Steps(h, p, At(at, stack, g), 0) == At(at, stack, g);
      } else {
        n := RunRound(h, p, s, b, at, at, k, k, start, exit, stack, g, fuel);
      }
    case Break => n := RunJump(h, p, Jump(exit.a - (at + 3)), at, exit.a, stack, g);
    case Next => n := RunJump(h, p, LoopBack(at + 3 - start), at, start, stack, g);
  }

  lemma RunJump(h: Host, p: Program, i: Instr, at: nat, target: nat, stack: seq<Value>, g: Globals) returns (n: nat)
    requires InstrAt(p, at, i)
    requires (i.Jump? && at + 3 + i.offset == target) || (i.LoopBack? && target + i.offset == at + 3)
    ensures n == 1 && Steps(h, p, At(at, stack, g), n) == At(target, stack, g)
  {
    StepAt(h, p, i, at, stack, g);
    n := 1;
  }

  lemma RunExprStmt(h: Host, p: Program, e: Expr, at: nat, k: nat, stack: seq<Value>, g: Globals) returns (n: nat)
    requires ExprAt(p, e, at, k) && InstrAt(p, at + ExprSize(e), Pop)
    ensures Steps(h, p, At(at, stack, g), n) ==
            match Eval(h, e, g, |stack|) case Err(error, g') => Failed(error, g')
                                         case Val(_, g') => At(at + ExprSize(e) + 1, stack, g')
  {
    hide ExprAt, Eval, ExprSize;
    n := RunExpr(h, p, e, at, k, stack, g);
    var r := Eval(h, e, g, |stack|);
    if r.Val? {
      var next := at + ExprSize(e);
      assert Steps(h, p, At(next + 1, stack, r.g), 0) == At(next + 1, stack, r.g);
      PopThen(h, p, next, stack, r.v, r.g, 0, At(next + 1, stack, r.g));
      Then(h, p, At(at, stack, g), n, At(next, stack + [r.v], r.g), 1, At(next + 1, stack, r.g));
      n := n + 1;
    }
  }

  /** A condition, its branch and the pops on both sides. */
  lemma RunGuard(h: Host, p: Program, from: Config, n: nat, at: nat, off: nat, stack: seq<Value>, v: Value, g: Globals)
    requires Steps(h, p, from, n) == At(at, stack + [v], g)
    requires GuardAt(p, at, off) && InstrAt(p, at + 3 + off, Pop)
    ensures Steps(h, p, from, n + 2) == At(if Falsy(v) then at + 4 + off else at + 4, stack, g)
  {
    BranchStep(h, p, from, n, at, off, stack, v, g);
    var target := if Falsy(v) then at + 3 + off else at + 3;
    assert Steps(h, p, At(target + 1, stack, g), 0) == At(target + 1, stack, g);
    PopThen(h, p, target, stack, v, g, 0, At(target + 1, stack, g));
    Then(h, p, from, n + 1, At(target, stack + [v], g), 1, At(target + 1, stack, g));
  }

  lemma {:induction false} RunArms(h: Host, p: Program, arms: Arms, at: nat, k: nat, start: nat, exit: Target,
                                   stack: seq<Value>, g: Globals, fuel: nat) returns (n: nat)
    requires ArmsAt(p, arms, at, k, start, exit)
    ensures Simulates(h, p, At(at, stack, g), n, EvalArms(h, arms, g, |stack|, fuel), stack, at + ArmsSize(arms),
                      start, exit, fuel)
    decreases fuel, arms, 1
  {
    hide ExprAt, Eval, ExprSize, ExprConstants, BlockAt, EvalBlock, BlockSize, BlockConstants, Execute;
    if arms.Else? {
      n := RunBlock(h, p, arms.body, at, k, start, exit, stack, g, fuel);
    } else {
      n := RunArm(h, p, arms, at, k, start, exit, stack, g, fuel);
    }
  }

  lemma {:induction false} RunArm(h: Host, p: Program, arms: Arms, at: nat, k: nat, start: nat, exit: Target,
                                  stack: seq<Value>, g: Globals, fuel: nat) returns (n: nat)
    requires arms.Arm? && ArmsAt(p, arms, at, k, start, exit)
    ensures Simulates(h, p, At(at, stack, g), n, EvalArms(h, arms, g, |stack|, fuel), stack, at + ArmsSize(arms),
                      start, exit, fuel)
    decreases fuel, arms, 0
  {
    hide ExprAt, Eval, ExprSize, ExprConstants, BlockAt, EvalBlock, BlockSize, BlockConstants, Execute;
    var Arm(c, b, rest) := arms;
    var from := At(at, stack, g);
    n := RunExpr(h, p, c, at, k, stack, g);
    var r := Eval(h, c, g, |stack|);
    if r.Val? {
      var mid := at + ExprSize(c);
      RunGuard(h, p, from, n, mid, BlockSize(b) + 4, stack, r.v, r.g);
      n := n + 2;
      var k' := k + |ExprConstants(c)|;
      if Falsy(r.v) {
        var next := mid + BlockSize(b) + 8;
        var m := RunArms(h, p, rest, next, k' + |BlockConstants(b)|, start, exit, stack, r.g, fuel);
        Prepend(h, p, from, n, At(next, stack, r.g), m, EvalArms(h, rest, r.g, |stack|, fuel), stack,
                next + ArmsSize(rest), start, exit, fuel);
        n := n + m;
      } else {
        var m := RunThenBlock(h, p, b, mid + 4, k', 1 + ArmsSize(rest), start, exit, stack, r.g, fuel);
        Prepend(h, p, from, n, At(mid + 4, stack, r.g), m, EvalBlock(h, b, r.g, |stack|, fuel), stack,
                mid + BlockSize(b) + 8 + ArmsSize(rest), start, exit, fuel);
        n := n + m;
      }
    }
  }

  /** A block followed by a forward jump. */
  lemma {:induction false} RunThenBlock(h: Host, p: Program, b: Block, at: nat, k: nat, off: nat, start: nat, exit: Target,
                                        stack: seq<Value>, g: Globals, fuel: nat) returns (n: nat)
    requires BlockAt(p, b, at, k, start, exit) && InstrAt(p, at + BlockSize(b), Jump(off))
    ensures Simulates(h, p, At(at, stack, g), n, EvalBlock(h, b, g, |stack|, fuel), stack, at + BlockSize(b) + 3 + off,
                      start, exit, fuel)
    decreases fuel, b, 1
  {
    hide BlockAt, EvalBlock, BlockSize, Execute;
    n := RunBlock(h, p, b, at, k, start, exit, stack, g, fuel);
    var o := EvalBlock(h, b, g, |stack|, fuel);
    if o.Normal? {
      var end := at + BlockSize(b);
      var m := RunJump(h, p, Jump(off), end, end + 3 + off, stack, o.g);
      Then(h, p, At(at, stack, g), n, At(end, stack, o.g), 1, At(end + 3 + off, stack, o.g));
      n := n + 1;
    }
  }

  /** One round of loop `s` from the start of its body, and all the rounds after it. */
  lemma {:induction false} RunRound(h: Host, p: Program, s: Stmt, b: Block, at: nat, body: nat, k: nat, k': nat,
                                    start: nat, exit: Target, stack: seq<Value>, g: Globals, fuel: nat) returns (n: nat)
    requires fuel > 0 && b < s && StmtAt(p, s, at, k, start, exit)
    requires LoopAt(p, b, body, k', at, at + StmtSize(s))
    ensures Simulates(h, p, At(body, stack, g), n, EvalRound(h, s, b, g, |stack|, fuel), stack, at + StmtSize(s),
                      start, exit, fuel)
    decreases fuel, s, 0
  {
    hide BlockAt, StmtAt, EvalBlock, EvalStmt, BlockSize, StmtSize, Steps, InstrAt;
    var from, end := At(body, stack, g), at + StmtSize(s);
    n := RunBlock(h, p, b, body, k', at, Address(end), stack, g, fuel);
    var o := EvalBlock(h, b, g, |stack|, fuel);
    if o.Normal? || o.Continued? {
      if o.Normal? {
        var jump := body + BlockSize(b);
        var one := RunJump(h, p, LoopBack(jump + 3 - at), jump, at, stack, o.g);
        Then(h, p, from, n, At(jump, stack, o.g), 1, At(at, stack, o.g));
        n := n + 1;
      }
      // At least one step has been taken; the remaining rounds have one unit of fuel less.
      var m := RunStmt(h, p, s, at, k, start, exit, stack, o.g, fuel - 1);
      Prepend(h, p, from, n, At(at, stack, o.g), m, EvalStmt(h, s, o.g, |stack|, fuel - 1), stack, end,
              start, exit, fuel - 1);
      n := n + m;
    }
  }

  lemma {:induction false} RunWhile(h: Host, p: Program, s: Stmt, at: nat, k: nat, start: nat, exit: Target,
                                    stack: seq<Value>, g: Globals, fuel: nat) returns (n: nat)
    requires s.While? && StmtAt(p, s, at, k, start, exit)
    ensures Simulates(h, p, At(at, stack, g), n, EvalStmt(h, s, g, |stack|, fuel), stack, at + StmtSize(s),
                      start, exit, fuel)
    decreases fuel, s, 1
  {
    hide ExprAt, Eval, ExprSize, ExprConstants, BlockAt, EvalBlock, EvalRound, BlockSize, LoopAt, Execute;
    var (c, b) := (s.cond, s.body);
    var from, mid := At(at, stack, g), at + ExprSize(c);
    if fuel == 0 {
      n := 0;
      assert Steps(h, p, from, 0) == from;
      return;
    }
    n := RunExpr(h, p, c, at, k, stack, g);
    var r := Eval(h, c, g, |stack|);
    if r.Val? {
      RunGuard(h, p, from, n, mid, BlockSize(b) + 4, stack, r.v, r.g);
      n := n + 2;
      if !Falsy(r.v) {
        var m := RunRound(h, p, s, b, at, mid + 4, k, k + |ExprConstants(c)|, start, exit, stack, r.g, fuel);
        Prepend(h, p, from, n, At(mid + 4, stack, r.g), m, EvalRound(h, s, b, r.g, |stack|, fuel), stack,
                at + StmtSize(s), start, exit, fuel);
        n := n + m;
      }
    }
  }

  lemma {:induction false} RunUntil(h: Host, p: Program, s: Stmt, at: nat, k: nat, start: nat, exit: Target,
                                    stack: seq<Value>, g: Globals, fuel: nat) returns (n: nat)
    requires s.Until? && StmtAt(p, s, at, k, start, exit)
    ensures Simulates(h, p, At(at, stack, g), n, EvalStmt(h, s, g, |stack|, fuel), stack, at + StmtSize(s),
                      start, exit, fuel)
    decreases fuel, s, 1
  {
    hide ExprAt, Eval, ExprSize, ExprConstants, BlockAt, EvalBlock, EvalRound, BlockSize, LoopAt, Execute;
    var (c, b) := (s.cond, s.body);
    var from, mid := At(at, stack, g), at + ExprSize(c);
    if fuel == 0 {
      n := 0;
      assert Steps(h, p, from, 0) == from;
      return;
    }
    n := RunExpr(h, p, c, at, k, stack, g);
    var r := Eval(h, c, g, |stack|);
    if r.Val? {
      RunNotGuard(h, p, from, n, mid, BlockSize(b) + 4, stack, r.v, r.g);
      n := n + 3;
      if Falsy(r.v) {
        var m := RunRound(h, p, s, b, at, mid + 5, k, k + |ExprConstants(c)|, start, exit, stack, r.g, fuel);
        Prepend(h, p, from, n, At(mid + 5, stack, r.g), m, EvalRound(h, s, b, r.g, |stack|, fuel), stack,
                at + StmtSize(s), start, exit, fuel);
        n := n + m;
      }
    }
  }

  /** The inverted conditional jump. */
  lemma RunNotGuard(h: Host, p: Program, from: Config, n: nat, at: nat, off: nat, stack: seq<Value>, v: Value, g: Globals)
    requires Steps(h, p, from, n) == At(at, stack + [v], g) && |stack| < STACK_MAX
    requires InstrAt(p, at, OpNot) && GuardAt(p, at + 1, off) && InstrAt(p, at + 4 + off, Pop)
    ensures Steps(h, p, from, n + 3) == At(if Falsy(v) then at + 5 else at + 5 + off, stack, g)
  {
    hide Steps, InstrAt, GuardAt;
    RunNot(h, p, from, n, at, stack, v, g);
    RunGuard(h, p, from, n + 1, at + 1, off, stack, Bool(Falsy(v)), g);
  }

  lemma RunNot(h: Host, p: Program, from: Config, n: nat, at: nat, stack: seq<Value>, v: Value, g: Globals)
    requires Steps(h, p, from, n) == At(at, stack + [v], g) && InstrAt(p, at, OpNot) && |stack| < STACK_MAX
    ensures Steps(h, p, from, n + 1) == At(at + 1, stack + [Bool(Falsy(v))], g)
  {
    StepAt(h, p, OpNot, at, stack + [v], g);
    assert (stack + [v])[..|stack|] == stack;
    Then(h, p, from, n, At(at, stack + [v], g), 1, At(at + 1, stack + [Bool(Falsy(v))], g));
  }
}
